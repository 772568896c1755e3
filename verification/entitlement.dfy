/** Entitlement: how many units of prey each lion of an accepted instance is
    owed, the pass that removes unborn, absent and dead lions from the
    instance, and the resulting target portions. The bomb's lit indicators and
    serial-number letters are parameters. */
module Entitlement {
  import opened Common
  import opened Lions
  import opened Selection
  import opened Portions

  // ---------------------------------------------------------------------
  // Base entitlement

  /** `kingsMother`: the mother of the first lion that is King this year, and
      `None` (C# null) when no lion is. */
  function KingsMother(s: seq<Lion>, year: nat): (km: Option<string>)
    ensures (forall j :: 0 <= j < |s| ==> StatusAt(s[j], year) != King) ==> km == None
    ensures forall i :: 0 <= i < |s| && StatusAt(s[i], year) == King && FirstKing(s, year, i) ==> km == s[i].mother
  {
    if |s| == 0 then None
    else if StatusAt(s[0], year) == King then s[0].mother
    else
      var rest := KingsMother(s[1..], year);
      assert forall i :: 1 <= i < |s| && FirstKing(s, year, i) ==> FirstKing(s[1..], year, i - 1);
      rest
  }

  /** No lion before position `i` is King. */
  predicate FirstKing(s: seq<Lion>, year: nat, i: nat)
    requires i <= |s|
  {
    forall j :: 0 <= j < i ==> StatusAt(s[j], year) != King
  }

  /** The lion shares the King's mother (plain equality of possibly-null
      strings: two motherless lions count as siblings). */
  predicate SiblingOfKing(l: Lion, km: Option<string>)
  {
    l.mother == km
  }

  /** Units owed for the lion's status alone. */
  function BaseEntitlement(l: Lion, year: nat, km: Option<string>): (r: nat)
    ensures r > 0 <==> StatusAt(l, year) in {King, Adult, Cub, Visiting}
    ensures r == 10 <==> StatusAt(l, year) == King
    ensures r <= 10
  {
    match StatusAt(l, year)
    case King => 10
    case Adult => if SiblingOfKing(l, km) then 7 else 5
    case Cub => if SiblingOfKing(l, km) then 4 else 3
    case Visiting => 1
    case _ => 0
  }

  /** The tiers are strictly ordered: King above every adult, adults above
      every cub, cubs above visitors, and within adults and within cubs the
      King's siblings above the rest. */
  lemma TiersOrdered(king: Lion, adult: Lion, cub: Lion, visitor: Lion, year: nat, km: Option<string>)
    requires StatusAt(king, year) == King && StatusAt(adult, year) == Adult
    requires StatusAt(cub, year) == Cub && StatusAt(visitor, year) == Visiting
    ensures BaseEntitlement(king, year, km) > BaseEntitlement(adult, year, km)
    ensures BaseEntitlement(adult, year, km) > BaseEntitlement(cub, year, km)
    ensures BaseEntitlement(cub, year, km) > BaseEntitlement(visitor, year, km) > 0
  {
  }

  /** Of two adults, or two cubs, a sibling of the King gets strictly more
      than a non-sibling: two more units as an adult, one more as a cub. */
  lemma SiblingsGetMore(a: Lion, b: Lion, year: nat, km: Option<string>)
    requires StatusAt(a, year) == StatusAt(b, year)
    requires StatusAt(a, year) == Adult || StatusAt(a, year) == Cub
    requires SiblingOfKing(a, km) && !SiblingOfKing(b, km)
    ensures BaseEntitlement(a, year, km) ==
      BaseEntitlement(b, year, km) + (if StatusAt(a, year) == Adult then 2 else 1)
  {
  }

  /** With no King present no lion with a mother is a sibling: adults get 5
      and cubs 3. */
  lemma NoKingNoSiblings(s: seq<Lion>, year: nat, l: Lion)
    requires forall j :: 0 <= j < |s| ==> StatusAt(s[j], year) != King
    requires l.mother.Some?
    ensures StatusAt(l, year) == Adult ==> BaseEntitlement(l, year, KingsMother(s, year)) == 5
    ensures StatusAt(l, year) == Cub ==> BaseEntitlement(l, year, KingsMother(s, year)) == 3
  {
  }

  // ---------------------------------------------------------------------
  // Bonuses

  /** `char.ToUpperInvariant` on ASCII letters. */
  function Upper(c: char): (u: char)
    ensures 'a' <= c <= 'z' ==> u as int == c as int - 32
    ensures !('a' <= c <= 'z') ==> u == c
    ensures !('a' <= u <= 'z')
  {
    if 'a' <= c <= 'z' then (c as int - 32) as char else c
  }

  /** `name.ToUpperInvariant()`. */
  function UpperName(name: string): (r: string)
    ensures |r| == |name|
    ensures forall i :: 0 <= i < |name| ==> r[i] == Upper(name[i])
  {
    seq(|name|, i requires 0 <= i < |name| => Upper(name[i]))
  }

  /** Upper-casing is idempotent. */
  lemma UpperNameIdempotent(name: string)
    ensures UpperName(UpperName(name)) == UpperName(name)
  {
  }

  /** The indicator has some letter that occurs in the upper-cased name. */
  predicate SharesLetter(ind: string, name: string)
  {
    exists k :: 0 <= k < |ind| && ind[k] in UpperName(name)
  }

  /** Units per matching indicator: 4 for the King, 3 for an adult sibling of
      the King, 2 for any other male and 1 for any other female. */
  function Multiplier(l: Lion, year: nat, km: Option<string>): (m: nat)
    ensures 1 <= m <= 4
    ensures m == 4 <==> StatusAt(l, year) == King
    ensures m == 3 <==> StatusAt(l, year) == Adult && SiblingOfKing(l, km)
    ensures m == 2 <==> StatusAt(l, year) != King && !(StatusAt(l, year) == Adult && SiblingOfKing(l, km)) && l.male
    ensures m == 1 <==> StatusAt(l, year) != King && !(StatusAt(l, year) == Adult && SiblingOfKing(l, km)) && !l.male
  {
    if StatusAt(l, year) == King then 4
    else if StatusAt(l, year) == Adult && SiblingOfKing(l, km) then 3
    else if l.male then 2
    else 1
  }

  /** The number of lit indicators sharing a letter with the lion's name,
      times the lion's multiplier. */
  function IndicatorBonus(indicators: seq<string>, l: Lion, year: nat, km: Option<string>): (r: nat)
    ensures r <= 4 * |indicators|
  {
    CountAtMostLength(indicators, ind => SharesLetter(ind, l.name));
    Count(indicators, ind => SharesLetter(ind, l.name)) * Multiplier(l, year, km)
  }

  /** The indicator bonus is additive over the indicators: each lit indicator
      contributes the multiplier or nothing on its own. */
  lemma IndicatorBonusAppend(a: seq<string>, b: seq<string>, l: Lion, year: nat, km: Option<string>)
    ensures IndicatorBonus(a + b, l, year, km) == IndicatorBonus(a, l, year, km) + IndicatorBonus(b, l, year, km)
  {
    CountAppend(a, b, ind => SharesLetter(ind, l.name));
  }

  /** One indicator earns the full multiplier exactly when it shares a letter
      with the name. */
  lemma IndicatorBonusSingle(ind: string, l: Lion, year: nat, km: Option<string>)
    ensures IndicatorBonus([ind], l, year, km) ==
      if SharesLetter(ind, l.name) then Multiplier(l, year, km) else 0
  {
    var p := (i: string) => SharesLetter(i, l.name);
    assert [ind][..0] == [];
    assert Count([ind], p) == if p(ind) then 1 else 0;
  }

  /** The number of serial-number letters, counted with repetition, that occur
      in the upper-cased name. */
  function SerialBonus(serial: seq<char>, name: string): (r: nat)
    ensures r <= |serial|
  {
    CountAtMostLength(serial, c => c in UpperName(name));
    Count(serial, c => c in UpperName(name))
  }

  /** The serial bonus is the number of positions of the serial number whose
      letter occurs in the name: a repeated letter counts every time. */
  lemma SerialBonusPositions(serial: seq<char>, name: string)
    ensures SerialBonus(serial, name) == |set k: nat | k < |serial| && serial[k] in UpperName(name)|
  {
    CountIsPositions(serial, c => c in UpperName(name));
    assert Positions(serial, c => c in UpperName(name))
      == set k: nat | k < |serial| && serial[k] in UpperName(name);
  }

  /** Neither bonus depends on the case of the name. */
  lemma BonusesIgnoreCase(indicators: seq<string>, serial: seq<char>, l: Lion, year: nat, km: Option<string>)
    ensures SerialBonus(serial, UpperName(l.name)) == SerialBonus(serial, l.name)
    ensures IndicatorBonus(indicators, l.(name := UpperName(l.name)), year, km) == IndicatorBonus(indicators, l, year, km)
  {
    UpperNameIdempotent(l.name);
    CountSame(indicators, ind => SharesLetter(ind, UpperName(l.name)), ind => SharesLetter(ind, l.name));
  }

  // ---------------------------------------------------------------------
  // The entitlement table

  /** One row of the source's entitlement table: base entitlement, indicator
      bonus, serial-number bonus and the count of unborn cubs. */
  datatype Row = Row(base: nat, indicator: nat, serial: nat, cubs: nat)

  /** The entitlement the module divides by: the unborn-cub column is shown in
      the table but never added. */
  function Owed(row: Row): nat
  {
    row.base + row.indicator + row.serial
  }

  /** A lion's row before the unborn pass. */
  function Breakdown(l: Lion, year: nat, km: Option<string>, indicators: seq<string>, serial: seq<char>): (row: Row)
    ensures row.base == BaseEntitlement(l, year, km) && row.cubs == 0
    ensures Owed(row) >= row.base
    ensures Owed(row) <= 10 + 4 * |indicators| + |serial|
  {
    Row(BaseEntitlement(l, year, km), IndicatorBonus(indicators, l, year, km), SerialBonus(serial, l.name), 0)
  }

  /** The rows of every lion, with the King's mother taken from the whole
      instance. */
  function Rows(s: seq<Lion>, year: nat, indicators: seq<string>, serial: seq<char>): (rows: seq<Row>)
    ensures |rows| == |s|
    ensures forall i :: 0 <= i < |s| ==> rows[i] == Breakdown(s[i], year, KingsMother(s, year), indicators, serial)
  {
    var km := KingsMother(s, year);
    seq(|s|, i requires 0 <= i < |s| => Breakdown(s[i], year, km, indicators, serial))
  }

  /** The `entitlement` array. */
  function Owing(rows: seq<Row>): (e: seq<nat>)
    ensures |e| == |rows|
    ensures forall i :: 0 <= i < |rows| ==> e[i] == Owed(rows[i])
  {
    seq(|rows|, i requires 0 <= i < |rows| => Owed(rows[i]))
  }

  /** Every lion that receives prey, with a named status other than Null, is
      owed at least one unit, so the total is at least the number of such
      lions. */
  lemma TotalAtLeastClaimants(s: seq<Lion>, year: nat, indicators: seq<string>, serial: seq<char>)
    requires forall i :: 0 <= i < |s| ==> StatusAt(s[i], year) != Null && !StatusAt(s[i], year).Unnamed?
    ensures Sum(Owing(Rows(s, year, indicators, serial))) >= Claimants(s, year)
  {
    var e := Owing(Rows(s, year, indicators, serial));
    SumAtLeastCount(e, s, l => Claimant(l, year));
  }

  // ---------------------------------------------------------------------
  // The unborn, absent and dead pass

  /** The statuses whose lions are taken out of the instance. */
  predicate Vanishes(st: LionStatus)
  {
    st == Unborn || st == Absent || st == Dead
  }

  /** `lions.IndexOf(lion => lion != null && lion.Name == mother)`, or `None`
      where the source's `IndexOf` gives -1 and the indexer then throws. */
  function IndexOfMother(slots: seq<Option<Lion>>, mother: Option<string>): (r: Option<nat>)
    ensures r.None? <==> forall j :: 0 <= j < |slots| ==> !(slots[j].Some? && Some(slots[j].value.name) == mother)
    ensures r.Some? ==>
      && r.value < |slots|
      && slots[r.value].Some? && Some(slots[r.value].value.name) == mother
      && forall j :: 0 <= j < r.value ==> !(slots[j].Some? && Some(slots[j].value.name) == mother)
  {
    if |slots| == 0 then None
    else if slots[0].Some? && Some(slots[0].value.name) == mother then Some(0)
    else
      match IndexOfMother(slots[1..], mother)
      case None => None
      case Some(j) => Some(j + 1)
  }

  /** What the pass leaves: the slots (`None` for a removed lion) and the
      unborn-cub column of the table. */
  datatype Pass = Pass(slots: seq<Option<Lion>>, cubs: seq<nat>)

  /** The slot a lion ends in: removed when unborn, absent or dead. */
  function Slot(l: Lion, year: nat): Option<Lion>
  {
    if Vanishes(StatusAt(l, year)) then None else Some(l)
  }

  /** The slots part-way through the pass: lions before `i` handled, the
      others still in place. */
  predicate HandledBefore(lions: seq<Lion>, year: nat, i: nat, slots: seq<Option<Lion>>)
  {
    && |slots| == |lions|
    && forall j :: 0 <= j < |lions| ==> slots[j] == if j < i then Slot(lions[j], year) else Some(lions[j])
  }

  /** The number of unborn lions at positions `i` and later. */
  function UnbornFrom(lions: seq<Lion>, year: nat, i: nat): nat
    decreases |lions| - i
  {
    if i >= |lions| then 0
    else (if StatusAt(lions[i], year) == Unborn then 1 else 0) + UnbornFrom(lions, year, i + 1)
  }

  /** The pass from position `i` on: an unborn lion adds one to its mother's
      cub column (its mother looked up among the slots not yet removed) and is
      removed; an absent or dead lion is removed. */
  function NullFrom(lions: seq<Lion>, year: nat, i: nat, slots: seq<Option<Lion>>, cubs: seq<nat>): (r: Result<Pass>)
    requires i <= |lions| && |cubs| == |lions|
    requires HandledBefore(lions, year, i, slots)
    ensures r.Success? ==>
      && HandledBefore(lions, year, |lions|, r.value.slots)
      && |r.value.cubs| == |lions|
      && Sum(r.value.cubs) == Sum(cubs) + UnbornFrom(lions, year, i)
    decreases |lions| - i
  {
    if i == |lions| then Success(Pass(slots, cubs))
    else
      var st := StatusAt(lions[i], year);
      if st == Unborn then
        match IndexOfMother(slots, lions[i].mother)
        case None => Failure(IndexOutOfRange)
        case Some(m) =>
          SumUpdate(cubs, m, cubs[m] + 1);
          NullFrom(lions, year, i + 1, slots[i := None], cubs[m := cubs[m] + 1])
      else if st == Absent || st == Dead then
        NullFrom(lions, year, i + 1, slots[i := None], cubs)
      else
        NullFrom(lions, year, i + 1, slots, cubs)
  }

  /** The whole pass, lines 180-191 of the module, starting from every lion in
      place and an empty cub column: on success exactly the unborn, absent
      and dead lions are removed, the others stay where they were, and the
      cub column holds one unit per unborn lion. */
  function NullOut(lions: seq<Lion>, year: nat): (r: Result<Pass>)
    ensures r.Success? ==>
      && |r.value.slots| == |lions| && |r.value.cubs| == |lions|
      && (forall j :: 0 <= j < |lions| ==> (r.value.slots[j].None? <==> Vanishes(StatusAt(lions[j], year))))
      && (forall j :: 0 <= j < |lions| ==> r.value.slots[j].Some? ==> r.value.slots[j] == Some(lions[j]))
      && Sum(r.value.cubs) == UnbornFrom(lions, year, 0)
  {
    SumConstant(|lions|, 0);
    var r := NullFrom(lions, year, 0, seq(|lions|, j requires 0 <= j < |lions| => Some(lions[j])), seq(|lions|, _ => 0));
    if r.Success? then
      assert forall j :: 0 <= j < |lions| ==> r.value.slots[j] == Slot(lions[j], year);
      r
    else r
  }

  /** The number of unborn lions counted by position agrees with `Count`. */
  lemma {:induction false} UnbornFromCount(lions: seq<Lion>, year: nat, i: nat)
    requires i <= |lions|
    ensures UnbornFrom(lions, year, i) == Count(lions[i..], l => StatusAt(l, year) == Unborn)
    decreases |lions| - i
  {
    var p := l => StatusAt(l, year) == Unborn;
    if i < |lions| {
      UnbornFromCount(lions, year, i + 1);
      assert lions[i..] == [lions[i]] + lions[i + 1..];
      CountAppend([lions[i]], lions[i + 1..], p);
      assert [lions[i]][..0] == [];
    } else {
      assert lions[i..] == [];
    }
  }

  /** Every unborn lion's mother is a lion of the instance that stays in it
      (is not unborn, absent or dead this year). */
  predicate MothersStay(lions: seq<Lion>, year: nat)
  {
    forall c :: 0 <= c < |lions| && StatusAt(lions[c], year) == Unborn ==>
      exists m :: 0 <= m < |lions| && Some(lions[m].name) == lions[c].mother && !Vanishes(StatusAt(lions[m], year))
  }

  /** An unborn lion at position `i` whose mother stays finds her among the
      slots at its turn. */
  lemma MotherFound(lions: seq<Lion>, year: nat, i: nat, slots: seq<Option<Lion>>)
    requires i < |lions| && HandledBefore(lions, year, i, slots)
    requires StatusAt(lions[i], year) == Unborn
    requires MothersStay(lions, year)
    ensures IndexOfMother(slots, lions[i].mother).Some?
  {
    var k :| 0 <= k < |lions| && Some(lions[k].name) == lions[i].mother && !Vanishes(StatusAt(lions[k], year));
    assert slots[k] == Some(lions[k]);
  }

  /** The pass from `i` on succeeds when every unborn lion's mother stays. */
  lemma {:induction false} NullFromSucceeds(lions: seq<Lion>, year: nat, i: nat, slots: seq<Option<Lion>>, cubs: seq<nat>)
    requires i <= |lions| && |cubs| == |lions|
    requires HandledBefore(lions, year, i, slots)
    requires MothersStay(lions, year)
    ensures NullFrom(lions, year, i, slots, cubs).Success?
    decreases |lions| - i
  {
    if i < |lions| {
      var st := StatusAt(lions[i], year);
      if st == Unborn {
        MotherFound(lions, year, i, slots);
        var mi := IndexOfMother(slots, lions[i].mother).value;
        HandledStep(lions, year, i, slots);
        NullFromSucceeds(lions, year, i + 1, slots[i := None], cubs[mi := cubs[mi] + 1]);
      } else if st == Absent || st == Dead {
        HandledStep(lions, year, i, slots);
        NullFromSucceeds(lions, year, i + 1, slots[i := None], cubs);
      } else {
        HandledStep(lions, year, i, slots);
        NullFromSucceeds(lions, year, i + 1, slots, cubs);
      }
    }
  }

  /** Handling position `i` empties its slot exactly when its lion vanishes. */
  lemma HandledStep(lions: seq<Lion>, year: nat, i: nat, slots: seq<Option<Lion>>)
    requires i < |lions| && HandledBefore(lions, year, i, slots)
    ensures Vanishes(StatusAt(lions[i], year)) ==> HandledBefore(lions, year, i + 1, slots[i := None])
    ensures !Vanishes(StatusAt(lions[i], year)) ==> HandledBefore(lions, year, i + 1, slots)
  {
  }

  /** A successful pass from `i` found, for each unborn lion at `i` or later,
      a lion of the instance with its mother's name. */
  lemma {:induction false} NullFromFindsMothers(lions: seq<Lion>, year: nat, i: nat, slots: seq<Option<Lion>>, cubs: seq<nat>)
    requires i <= |lions| && |cubs| == |lions|
    requires HandledBefore(lions, year, i, slots)
    requires NullFrom(lions, year, i, slots, cubs).Success?
    ensures forall k :: i <= k < |lions| && StatusAt(lions[k], year) == Unborn ==>
      exists m :: m in lions && Some(m.name) == lions[k].mother
    decreases |lions| - i
  {
    if i < |lions| {
      var st := StatusAt(lions[i], year);
      if st == Unborn {
        var mi := IndexOfMother(slots, lions[i].mother).value;
        assert slots[mi] == Some(lions[mi]);
        assert lions[mi] in lions;
        NullFromFindsMothers(lions, year, i + 1, slots[i := None], cubs[mi := cubs[mi] + 1]);
      } else if st == Absent || st == Dead {
        NullFromFindsMothers(lions, year, i + 1, slots[i := None], cubs);
      } else {
        NullFromFindsMothers(lions, year, i + 1, slots, cubs);
      }
    }
  }

  /** The pass never throws when every unborn lion's mother stays; and when
      it does not throw, every unborn lion's mother is among the lions, the
      check validation already made. */
  lemma NullOutSucceeds(lions: seq<Lion>, year: nat)
    ensures MothersStay(lions, year) ==> NullOut(lions, year).Success?
    ensures NullOut(lions, year).Success? ==> MothersPresent(lions, year)
  {
    var slots := seq(|lions|, j requires 0 <= j < |lions| => Some(lions[j]));
    var cubs := seq(|lions|, _ => 0);
    if MothersStay(lions, year) {
      NullFromSucceeds(lions, year, 0, slots, cubs);
    }
    if NullOut(lions, year).Success? {
      NullFromFindsMothers(lions, year, 0, slots, cubs);
      forall c | c in lions && StatusAt(c, year) == Unborn
        ensures exists m :: m in lions && Some(m.name) == c.mother
      {
        var k :| 0 <= k < |lions| && lions[k] == c;
      }
    }
  }

  // ---------------------------------------------------------------------
  // Apportioning

  /** Everything the module computes for an accepted instance: the table,
      the slots left after the pass, and the correct portions. */
  datatype Apportionment = Apportionment(rows: seq<Row>, slots: seq<Option<Lion>>, portions: seq<int>)

  /** Lines 136-210 of the module for an instance whose lead huntress is at
      position 0: entitlement rows, the unborn pass (which can throw), then
      the target portions of the entitlements (which throw on a zero total).
      Entitlement is computed before the pass, so removed lions keep their
      bonuses and still count in the total. */
  function Apportion(s: seq<Lion>, year: nat, indicators: seq<string>, serial: seq<char>): (r: Result<Apportionment>)
    requires |s| >= 1 && IsLeadHuntress(s[0], year)
    ensures r.Failure? <==> NullOut(s, year).Failure? || Sum(Owing(Rows(s, year, indicators, serial))) == 0
    ensures r.Failure? && NullOut(s, year).Success? ==> r.fault == DivideByZero
    ensures r.Success? ==>
      && NullOut(s, year).Success?
      && r.value.rows == WithCubs(Rows(s, year, indicators, serial), NullOut(s, year).value.cubs)
      && r.value.slots == NullOut(s, year).value.slots
      && r.value.slots[0] == Some(s[0])
      && TargetPortions(Owing(r.value.rows)) == Success(r.value.portions)
  {
    var rows := Rows(s, year, indicators, serial);
    match NullOut(s, year)
    case Failure(f) => Failure(f)
    case Success(pass) =>
      var final := WithCubs(rows, pass.cubs);
      match TargetPortions(Owing(final))
      case Failure(f) => Failure(f)
      case Success(p) => Success(Apportionment(final, pass.slots, p))
  }

  /** The rows with the unborn-cub column filled in; the entitlement they
      stand for is unchanged. */
  function WithCubs(rows: seq<Row>, cubs: seq<nat>): (r: seq<Row>)
    requires |cubs| == |rows|
    ensures |r| == |rows|
    ensures forall j :: 0 <= j < |rows| ==> r[j] == rows[j].(cubs := cubs[j])
    ensures Owing(r) == Owing(rows)
  {
    seq(|rows|, j requires 0 <= j < |rows| => rows[j].(cubs := cubs[j]))
  }

  /** An accepted instance is apportioned without an exception: when every
      lion is present this year with a named status, at least two receive
      prey and every unborn lion's mother stays, the pass does not throw and
      the total entitlement is positive, so the division does not throw
      either. */
  lemma ApportionAccepted(s: seq<Lion>, year: nat, indicators: seq<string>, serial: seq<char>)
    requires |s| >= 1 && IsLeadHuntress(s[0], year)
    requires forall i :: 0 <= i < |s| ==> StatusAt(s[i], year) != Null && !StatusAt(s[i], year).Unnamed?
    requires Claimants(s, year) >= 2
    requires MothersStay(s, year)
    ensures Apportion(s, year, indicators, serial).Success?
  {
    TotalAtLeastClaimants(s, year, indicators, serial);
    NullOutSucceeds(s, year);
  }

  /** Every lion earns its base and both bonuses, whatever the pass later
      does with it: the entitlement each portion is computed from is the sum
      of the three for every position, a lion removed as unborn, absent or
      dead included, and the total the portions divide by counts them all. */
  lemma EveryLionEarnsBonuses(s: seq<Lion>, year: nat, indicators: seq<string>, serial: seq<char>)
    requires |s| >= 1 && IsLeadHuntress(s[0], year)
    requires Apportion(s, year, indicators, serial).Success?
    ensures var r := Apportion(s, year, indicators, serial).value;
      var km := KingsMother(s, year);
      var e := Owing(r.rows);
      && |e| == |s|
      && (forall j :: 0 <= j < |s| ==>
            e[j] == BaseEntitlement(s[j], year, km) + IndicatorBonus(indicators, s[j], year, km) + SerialBonus(serial, s[j].name))
      && (forall j :: 0 <= j < |s| ==> (r.slots[j].None? <==> Vanishes(StatusAt(s[j], year))))
      && TargetPortions(e) == Success(r.portions)
  {
    var r := Apportion(s, year, indicators, serial).value;
    var km := KingsMother(s, year);
    var rows := Rows(s, year, indicators, serial);
    assert Owing(r.rows) == Owing(rows);
    forall j | 0 <= j < |s|
      ensures Owing(rows)[j] == BaseEntitlement(s[j], year, km) + IndicatorBonus(indicators, s[j], year, km) + SerialBonus(serial, s[j].name)
    {
      assert rows[j] == Breakdown(s[j], year, km, indicators, serial);
    }
  }

  /** Whatever instance is apportioned, the portions are percentages summing
      to exactly 100, one per lion, and the lead huntress at position 0
      receives at least her truncated share and at least her exact
      proportional share. */
  lemma ApportionedPortions(s: seq<Lion>, year: nat, indicators: seq<string>, serial: seq<char>)
    requires |s| >= 1 && IsLeadHuntress(s[0], year)
    requires Apportion(s, year, indicators, serial).Success?
    ensures var p := Apportion(s, year, indicators, serial).value.portions;
      var e := Owing(Rows(s, year, indicators, serial));
      && Sum(e) > 0
      && |p| == |s|
      && Sum(p) == 100
      && (forall j :: 0 <= j < |s| ==> 0 <= p[j] <= 100)
      && p[0] >= RawPortions(e, Sum(e))[0]
      && p[0] * Sum(e) >= e[0] * 100
  {
    var e := Owing(Rows(s, year, indicators, serial));
    TargetPortionsArePercentages(e);
  }

  // ---------------------------------------------------------------------
  // The mother check, as written and as intended

  /** An instance the checks at lines 104-114 accept but the pass at line 186
      cannot finish: the cub's mother is there by name but dead, and she comes
      before the cub, so her slot is already empty when the cub looks for
      her and `IndexOf` returns -1. */
  function DeadMotherInstance(): seq<Lion>
  {
    [ Lion("Lead", None, false, seq(Years, _ => Adult)),
      Lion("Mom", None, false, seq(Years, _ => Dead)),
      Lion("Cub", Some("Mom"), false, seq(Years, _ => Unborn)),
      Lion("Pal", None, true, seq(Years, _ => Adult)) ]
  }

  /** The validation as written accepts the instance unchanged: the lead
      is already first, the mother is there by name and two adults claim. */
  lemma DeadMotherAccepted()
    ensures Validate(DeadMotherInstance(), 0) == Accepted(DeadMotherInstance())
  {
    var s := DeadMotherInstance();
    DeadMotherChecks();
    assert MoveToFront(s, 0) == s;
  }

  /** The three checks of lines 104-115 pass on the instance. */
  lemma DeadMotherChecks()
    ensures LeadIndex(DeadMotherInstance(), 0) == Some(0)
    ensures MothersPresent(DeadMotherInstance(), 0)
    ensures Claimants(DeadMotherInstance(), 0) >= 2
  {
    var s := DeadMotherInstance();
    assert StatusAt(s[0], 0) == Adult && StatusAt(s[3], 0) == Adult;
    forall c | c in s && StatusAt(c, 0) == Unborn
      ensures exists m :: m in s && Some(m.name) == c.mother
    {
      assert StatusAt(s[1], 0) == Dead;
      assert c == s[2];
      assert s[1] in s;
    }
    CountAtLeastTwo(s, l => Claimant(l, 0), 0, 3);
  }

  /** The pass over the accepted instance throws at the cub. */
  lemma DeadMotherCrashes()
    ensures NullOut(DeadMotherInstance(), 0).Failure?
  {
    var s := DeadMotherInstance();
    var slots := seq(4, j requires 0 <= j < 4 => Some(s[j]));
    var cubs := seq(4, _ => 0);
    assert StatusAt(s[0], 0) == Adult && StatusAt(s[1], 0) == Dead && StatusAt(s[2], 0) == Unborn;
    var slots2 := slots[1 := None];
    assert IndexOfMother(slots2, s[2].mother) == None by {
      assert forall j :: 0 <= j < 4 ==> !(slots2[j].Some? && Some(slots2[j].value.name) == Some("Mom"));
    }
    assert NullFrom(s, 0, 2, slots2, cubs).Failure?;
    assert NullFrom(s, 0, 0, slots, cubs) == NullFrom(s, 0, 1, slots, cubs);
    assert NullFrom(s, 0, 1, slots, cubs) == NullFrom(s, 0, 2, slots2, cubs);
  }

  /** The corrected check tells the instance apart: its cub's mother does not
      stay. */
  lemma DeadMotherDoesNotStay()
    ensures !MothersStay(DeadMotherInstance(), 0)
  {
    var s := DeadMotherInstance();
    assert StatusAt(s[2], 0) == Unborn;
    forall m | 0 <= m < |s| && Some(s[m].name) == s[2].mother
      ensures Vanishes(StatusAt(s[m], 0))
    {
      assert m == 1;
      assert StatusAt(s[1], 0) == Dead;
    }
  }

  /** So the corrected check rejects the instance and the attempt retries. */
  lemma DeadMotherRejected()
    ensures ValidateStaying(DeadMotherInstance(), 0) == Rejected
  {
    DeadMotherAccepted();
    DeadMotherDoesNotStay();
  }

  /** The mother check as evidently intended: besides being there by name,
      every unborn lion's mother must stay in the instance (not be unborn,
      absent or dead), checked on the reordered lions. An instance it accepts
      always gets through the pass. */
  function ValidateStaying(s: seq<Lion>, year: nat): (r: Outcome)
    ensures !r.Crashed?
    ensures r.Accepted? <==> Validate(s, year).Accepted? && MothersStay(Validate(s, year).lions, year)
    ensures r.Accepted? ==>
      && |r.lions| >= 1
      && IsLeadHuntress(r.lions[0], year)
      && multiset(r.lions) == multiset(s)
      && NullOut(r.lions, year).Success?
  {
    match Validate(s, year)
    case Accepted(lions) =>
      if MothersStay(lions, year) then
        NullOutSucceeds(lions, year);
        Accepted(lions)
      else Rejected
    case _ => Rejected
  }

  /** Under the corrected check every accepted instance whose lions all carry
      a named status is apportioned without an exception. */
  lemma StayingApportions(s: seq<Lion>, year: nat, indicators: seq<string>, serial: seq<char>)
    requires forall i :: 0 <= i < |s| ==> StatusAt(s[i], year) != Null && !StatusAt(s[i], year).Unnamed?
    requires ValidateStaying(s, year).Accepted?
    ensures var inst := ValidateStaying(s, year).lions;
      |inst| >= 1 && IsLeadHuntress(inst[0], year) && Apportion(inst, year, indicators, serial).Success?
  {
    var inst := ValidateStaying(s, year).lions;
    forall i | 0 <= i < |inst|
      ensures StatusAt(inst[i], year) != Null && !StatusAt(inst[i], year).Unnamed?
    {
      assert inst[i] in multiset(s);
      var k :| 0 <= k < |s| && s[k] == inst[i];
    }
    ApportionAccepted(inst, year, indicators, serial);
  }
}
