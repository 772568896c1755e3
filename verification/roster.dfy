/** The module's built-in pride table and the proof that decoding its text
    yields eighteen lions with sixteen-year timelines. */
module Pride {
  import opened Common
  import opened Lions
  import opened Selection
  import opened Portions
  import opened Entitlement

  /** The module's pride table, field by field: name, sex, mother, statuses. */
  const RosterRows: seq<seq<string>> := [
    ["Taka", "m", "Uru", "01223555555"],
    ["Mufasa", "m", "Uru", "12235"],
    ["Uru", "f", "", "333333"],
    ["Ahadi", "m", "", "3355"],
    ["Zama", "f", "", "333"],
    ["Mohatu", "m", "", "55"],
    ["Kion", "m", "Nala", "0000000000001225"],
    ["Kiara", "f", "Nala", "0000000000012233"],
    ["Kopa", "m", "Nala", "0000000000012"],
    ["Kovu", "m", "Zira", "0000000000122333"],
    ["Vitani", "f", "Zira", "0000000001223333"],
    ["Nuka", "m", "Zira", "0000000012233"],
    ["Mheetu", "m", "Sarabi", "000001223344433"],
    ["Zira", "f", "Sarafina", "0000012233333"],
    ["Nala", "f", "Sarafina", "0000122333433333"],
    ["Simba", "m", "Sarabi", "000124444445555"],
    ["Sarabi", "f", "", "22333333333333"],
    ["Sarafina", "f", "", "223333333333"]
  ]

  /** One line of the table text. */
  function RosterLine(k: nat): string
    requires k < |RosterRows|
  {
    Join(RosterRows[k], ',')
  }

  /** The table text exactly as the module spells it: the rows joined by
      commas, the lines joined by newlines. */
  function RosterText(): string
  {
    Join(seq(|RosterRows|, k requires 0 <= k < |RosterRows| => RosterLine(k)), '\n')
  }

  /** The pride the module works with: one lion per row of the table. */
  function Roster(): (r: seq<Lion>)
    ensures |r| == |RosterRows|
  {
    seq(|RosterRows|, k requires 0 <= k < |RosterRows| => FromFields(RosterRows[k]))
  }

  /** A field holds no separator of the table: no comma, newline or carriage
      return. */
  predicate PlainField(f: string)
  {
    ',' !in f && '\n' !in f && '\r' !in f
  }

  /** Every row has four plain fields and a digit field of at most sixteen
      characters. */
  lemma RosterRowPlain(k: nat)
    requires k < |RosterRows|
    ensures |RosterRows[k]| == 4
    ensures forall j :: 0 <= j < 4 ==> PlainField(RosterRows[k][j])
    ensures |RosterRows[k][3]| <= Years
  {
    if k < 6 {
      RowsPlainFirst(k);
    } else if k < 12 {
      RowsPlainMiddle(k);
    } else {
      RowsPlainLast(k);
    }
  }

  // The same facts for the rows in blocks of six.

  lemma RowsPlainFirst(k: nat)
    requires k < 6
    ensures |RosterRows[k]| == 4
    ensures forall j :: 0 <= j < 4 ==> PlainField(RosterRows[k][j])
    ensures |RosterRows[k][3]| <= Years
  {
  }

  lemma RowsPlainMiddle(k: nat)
    requires 6 <= k < 12
    ensures |RosterRows[k]| == 4
    ensures forall j :: 0 <= j < 4 ==> PlainField(RosterRows[k][j])
    ensures |RosterRows[k][3]| <= Years
  {
  }

  lemma RowsPlainLast(k: nat)
    requires 12 <= k < |RosterRows|
    ensures |RosterRows[k]| == 4
    ensures forall j :: 0 <= j < 4 ==> PlainField(RosterRows[k][j])
    ensures |RosterRows[k][3]| <= Years
  {
  }

  /** Each line of the text carries no line break and splits into its row. */
  lemma RosterLineSplits(k: nat)
    requires k < |RosterRows|
    ensures '\n' !in RosterLine(k) && '\r' !in RosterLine(k)
    ensures Split(RosterLine(k), ',') == RosterRows[k]
  {
    RosterRowPlain(k);
    var row := RosterRows[k];
    if '\n' in RosterLine(k) {
      JoinChars(row, ',', '\n');
    }
    if '\r' in RosterLine(k) {
      JoinChars(row, ',', '\r');
    }
    SplitJoin(row, ',');
  }

  /** Decoding the table text yields exactly the roster, and every roster lion
      has a sixteen-year timeline. */
  lemma RosterDecodes()
    ensures Decode(RosterText()) == Success(Roster())
    ensures forall l <- Roster() :: |l.status| == Years
  {
    var lines := seq(|RosterRows|, k requires 0 <= k < |RosterRows| => RosterLine(k));
    forall k | 0 <= k < |lines|
      ensures '\n' !in lines[k] && '\r' !in lines[k]
      ensures ParseLine(lines[k]) == Success(Roster()[k])
      ensures |Roster()[k].status| == Years
    {
      RosterLineSplits(k);
      RosterRowPlain(k);
    }
    if '\r' in RosterText() {
      JoinChars(lines, '\n', '\r');
    }
    assert Without(RosterText(), '\r') == RosterText();
    SplitJoin(lines, '\n');
    assert ParseLines(lines).value == Roster();
  }

  /** Every roster lion is observed over the whole window. */
  lemma RosterObserved()
    ensures forall l <- Roster() :: Observed(l)
  {
    RosterDecodes();
  }

  /** Sarabi and Sarafina (the last two rows) belong to the pride in every
      observed year: their digit fields hold no '0' (Null). */
  lemma LastTwoAlwaysPresent(year: nat)
    requires year < Years
    ensures StatusAt(Roster()[16], year) != Null
    ensures StatusAt(Roster()[17], year) != Null
  {
    RosterRowPlain(16);
    RosterRowPlain(17);
    var d16 := RosterRows[16][3];
    var d17 := RosterRows[17][3];
    assert '0' !in d16 && '0' !in d17;
    if year < |d16| {
      assert d16[year] != '0';
    }
    if year < |d17| {
      assert d17[year] != '0';
    }
  }

  /** Every year of the table has at least two lions present, so with any
      pool of at least three visitors no attempt on this roster ever throws. */
  lemma RosterAttemptsDoNotCrash(pool: seq<(string, bool)>, year: nat, d: Draws)
    requires year < Years
    requires |pool| >= 3
    requires ValidDraws(Roster(), pool, year, d)
    ensures |PresentIn(Roster(), year)| >= 2
    ensures !Attempt(Roster(), pool, year, d).Crashed?
  {
    LastTwoAlwaysPresent(year);
    var present := PresentIn(Roster(), year);
    var a, b := Roster()[16], Roster()[17];
    assert a.name != b.name by {
      RosterRowPlain(16);
      RosterRowPlain(17);
    }
    assert a in present && b in present;
    TwoMembers(present, a, b);
    AttemptDoesNotCrash(Roster(), pool, year, d);
  }

  /** Every digit field holds digits 0 to 7 only. */
  lemma RosterDigits(k: nat)
    requires k < |RosterRows|
    ensures forall c :: c in RosterRows[k][3] ==> '0' <= c <= '7'
  {
  }

  /** Every roster lion has one of the eight named statuses in every observed
      year. */
  lemma RosterStatusNamed(k: nat, year: nat)
    requires k < |RosterRows| && year < Years
    ensures !StatusAt(Roster()[k], year).Unnamed?
  {
    RosterRowPlain(k);
    RosterDigits(k);
    var digits := RosterRows[k][3];
    if year < |digits| {
      assert digits[year] in digits;
    }
  }

  /** No two rows of the table share a name. */
  lemma RowNamesDistinct(i: nat, j: nat)
    requires i < j < |RosterRows|
    ensures RosterRows[i][0] != RosterRows[j][0]
  {
  }

  /** No two roster lions share a name. */
  lemma RosterNamesDistinct(i: nat, j: nat)
    requires i < j < |RosterRows|
    ensures Roster()[i].name != Roster()[j].name
  {
    RowNamesDistinct(i, j);
    assert Roster()[i] == FromFields(RosterRows[i]);
    assert Roster()[j] == FromFields(RosterRows[j]);
  }

  /** The row of each lion's mother in the table, -1 for a lion whose mother
      field is empty. */
  const MotherRow: seq<int> := [2, 2, -1, -1, -1, -1, 14, 14, 14, 13, 13, 13, 16, 17, 17, 16, -1, -1]

  /** In the year a roster lion is unborn, its mother is a roster lion who is
      an adult that year. */
  lemma RosterUnbornMother(k: nat, year: nat)
    requires k < |RosterRows| && year < Years
    requires StatusAt(Roster()[k], year) == Unborn
    ensures 0 <= MotherRow[k] < |RosterRows|
    ensures Some(Roster()[MotherRow[k]].name) == Roster()[k].mother
    ensures StatusAt(Roster()[MotherRow[k]], year) == Adult
  {
    RosterRowPlain(k);
    var digits := RosterRows[k][3];
    assert Roster()[k] == FromFields(RosterRows[k]);
    if year >= |digits| || digits[year] != '1' {
      assert false;
    }
    var m := MotherRow[k];
    if m < 0 {
      assert false;
    } else {
      RosterRowPlain(m);
      assert Roster()[m] == FromFields(RosterRows[m]);
      UnbornMotherAdult(k, m, year);
    }
  }

  /** The table-level fact behind `RosterUnbornMother`: where a digit field
      has a '1', the mother's field has a '3' at the same position. */
  lemma UnbornMotherAdult(k: nat, m: nat, year: nat)
    requires k < |RosterRows| && m < |RosterRows| && MotherRow[k] == m
    requires year < |RosterRows[k][3]| && RosterRows[k][3][year] == '1'
    ensures RosterRows[m][0] == RosterRows[k][2]
    ensures year < |RosterRows[m][3]| && RosterRows[m][3][year] == '3'
  {
  }

  /** A visitor name is no roster lion's name. */
  predicate Stranger(name: string)
  {
    forall k :: 0 <= k < |RosterRows| ==> name != RosterRows[k][0]
  }

  /** In an accepted instance drawn from the table, every lion has a named,
      non-Null status and every unborn lion's mother stays in the instance. */
  lemma RosterInstanceFacts(pool: seq<(string, bool)>, year: nat, d: Draws)
    requires year < Years
    requires ValidDraws(Roster(), pool, year, d)
    requires forall v <- pool :: Stranger(v.0)
    requires Attempt(Roster(), pool, year, d).Accepted?
    ensures var inst := Attempt(Roster(), pool, year, d).lions;
      && (forall i :: 0 <= i < |inst| ==> StatusAt(inst[i], year) != Null && !StatusAt(inst[i], year).Unnamed?)
      && MothersStay(inst, year)
  {
    var inst := Attempt(Roster(), pool, year, d).lions;
    InstanceOrigins(pool, year, d);
    forall i | 0 <= i < |inst|
      ensures StatusAt(inst[i], year) != Null && !StatusAt(inst[i], year).Unnamed?
    {
      CandidateStatus(pool, year, inst[i]);
    }
    AcceptedMothersPresent(pool, year, d);
    MothersStayIn(pool, year, inst);
  }

  /** Every lion of an accepted instance is a roster lion present that year
      or a visitor from the pool. */
  lemma InstanceOrigins(pool: seq<(string, bool)>, year: nat, d: Draws)
    requires year < Years
    requires ValidDraws(Roster(), pool, year, d)
    requires Attempt(Roster(), pool, year, d).Accepted?
    ensures forall l <- Attempt(Roster(), pool, year, d).lions ::
      (l in Roster() && StatusAt(l, year) != Null) || FromPool(l, pool, year)
  {
    forall l | l in Attempt(Roster(), pool, year, d).lions
      ensures (l in Roster() && StatusAt(l, year) != Null) || FromPool(l, pool, year)
    {
      InInstance(pool, year, d, l);
    }
  }

  /** In an instance of roster lions and visitors that passed the mother
      check, every unborn lion's mother stays. */
  lemma MothersStayIn(pool: seq<(string, bool)>, year: nat, inst: seq<Lion>)
    requires year < Years
    requires forall v <- pool :: Stranger(v.0)
    requires forall l <- inst :: (l in Roster() && StatusAt(l, year) != Null) || FromPool(l, pool, year)
    requires MothersPresent(inst, year)
    ensures MothersStay(inst, year)
  {
    forall c | 0 <= c < |inst| && StatusAt(inst[c], year) == Unborn
      ensures exists m :: 0 <= m < |inst| && Some(inst[m].name) == inst[c].mother && !Vanishes(StatusAt(inst[m], year))
    {
      CubMotherStays(pool, year, inst, inst[c]);
      var m :| m in inst && Some(m.name) == inst[c].mother && !Vanishes(StatusAt(m, year));
      var j :| 0 <= j < |inst| && inst[j] == m;
    }
  }

  /** The mother of an unborn lion of an instance of roster lions and
      visitors, when present by name, is the roster lion who is her mother
      and an adult that year. */
  lemma CubMotherStays(pool: seq<(string, bool)>, year: nat, inst: seq<Lion>, c: Lion)
    requires year < Years
    requires forall v <- pool :: Stranger(v.0)
    requires forall l <- inst :: (l in Roster() && StatusAt(l, year) != Null) || FromPool(l, pool, year)
    requires MothersPresent(inst, year)
    requires c in inst && StatusAt(c, year) == Unborn
    ensures exists m :: m in inst && Some(m.name) == c.mother && !Vanishes(StatusAt(m, year))
  {
    CandidateStatus(pool, year, c);
    var k :| 0 <= k < |RosterRows| && c == Roster()[k];
    RosterUnbornMother(k, year);
    var m :| m in inst && Some(m.name) == c.mother;
    MotherIsRosterMother(pool, year, m, MotherRow[k]);
  }

  lemma AcceptedMothersPresent(pool: seq<(string, bool)>, year: nat, d: Draws)
    requires year < Years
    requires ValidDraws(Roster(), pool, year, d)
    requires Attempt(Roster(), pool, year, d).Accepted?
    ensures MothersPresent(Attempt(Roster(), pool, year, d).lions, year)
  {
    RosterObserved();
    AcceptedInstance(Roster(), pool, year, d);
  }

  /** A lion of an accepted instance is a roster lion present this year or a
      visitor from the pool. */
  lemma InInstance(pool: seq<(string, bool)>, year: nat, d: Draws, l: Lion)
    requires year < Years
    requires ValidDraws(Roster(), pool, year, d)
    requires Attempt(Roster(), pool, year, d).Accepted?
    requires l in Attempt(Roster(), pool, year, d).lions
    ensures (l in Roster() && StatusAt(l, year) != Null) || FromPool(l, pool, year)
  {
    RosterObserved();
    AcceptedInstance(Roster(), pool, year, d);
    var cands := Candidates(Roster(), pool, year, d).value;
    assert l in multiset(cands);
    var j :| 0 <= j < |cands| && cands[j] == l;
  }

  /** Such a lion has a named status other than Null, and an unborn one is a
      roster lion. */
  lemma CandidateStatus(pool: seq<(string, bool)>, year: nat, l: Lion)
    requires year < Years
    requires (l in Roster() && StatusAt(l, year) != Null) || FromPool(l, pool, year)
    ensures StatusAt(l, year) != Null && !StatusAt(l, year).Unnamed?
    ensures StatusAt(l, year) == Unborn ==> exists k :: 0 <= k < |RosterRows| && l == Roster()[k]
  {
    if l in Roster() {
      var k :| 0 <= k < |Roster()| && Roster()[k] == l;
      RosterStatusNamed(k, year);
    }
  }

  /** A lion of an instance carrying the name of roster lion `mk` is that
      lion. */
  lemma MotherIsRosterMother(pool: seq<(string, bool)>, year: nat, m: Lion, mk: nat)
    requires year < Years && mk < |RosterRows|
    requires forall v <- pool :: Stranger(v.0)
    requires (m in Roster() && StatusAt(m, year) != Null) || FromPool(m, pool, year)
    requires m.name == Roster()[mk].name
    ensures m == Roster()[mk]
  {
    if m in Roster() {
      var i :| 0 <= i < |Roster()| && Roster()[i] == m;
      if i < mk {
        RosterNamesDistinct(i, mk);
      } else if mk < i {
        RosterNamesDistinct(mk, i);
      }
    }
  }

  /** End to end on the module's own pride: every accepted instance is
      apportioned without an exception, and its target portions are
      percentages summing to exactly 100 with the lead huntress at position 0
      receiving at least her exact proportional share. */
  lemma RosterApportions(pool: seq<(string, bool)>, year: nat, d: Draws, indicators: seq<string>, serial: seq<char>)
    requires year < Years
    requires ValidDraws(Roster(), pool, year, d)
    requires forall v <- pool :: Stranger(v.0)
    requires Attempt(Roster(), pool, year, d).Accepted?
    ensures var inst := Attempt(Roster(), pool, year, d).lions;
      && |inst| >= 2 && IsLeadHuntress(inst[0], year)
      && var r := Apportion(inst, year, indicators, serial);
      && r.Success?
      && Sum(r.value.portions) == 100
      && (forall j :: 0 <= j < |inst| ==> 0 <= r.value.portions[j] <= 100)
      && var e := Owing(Rows(inst, year, indicators, serial));
      && r.value.portions[0] * Sum(e) >= e[0] * 100
  {
    RosterObserved();
    AcceptedInstance(Roster(), pool, year, d);
    RosterInstanceFacts(pool, year, d);
    var inst := Attempt(Roster(), pool, year, d).lions;
    ApportionAccepted(inst, year, indicators, serial);
    ApportionedPortions(inst, year, indicators, serial);
  }

  /** The sibling test is plain equality of mother fields, so in year 0, with
      Mohatu as King, Ahadi counts as his sibling through their shared empty
      mother field and is owed 7 units rather than 5. */
  lemma EmptyMothersAreSiblings()
    ensures KingsMother([Roster()[5], Roster()[3]], 0) == Some("")
    ensures BaseEntitlement(Roster()[3], 0, KingsMother([Roster()[5], Roster()[3]], 0)) == 7
  {
    RosterRowPlain(5);
    RosterRowPlain(3);
    assert Roster()[5] == FromFields(RosterRows[5]);
    assert Roster()[3] == FromFields(RosterRows[3]);
  }
}
