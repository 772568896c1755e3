/** The pride: the `LionStatus` enumeration, the `Lion` record, and the decoder
    that turns the module's built-in comma-separated pride table into lions
    whose status timelines cover the sixteen observed years. */
module Lions {
  import opened Common

  /** Number of years in the observation window (and in every timeline). */
  const Years := 16

  /** A lion's state in one year. The eight named values carry the C# enum's
      numeric codes 0..7; `Unnamed(code)` is what the C# cast
      `(LionStatus) code` yields for any other code: a value equal to none of
      the named ones. */
  datatype LionStatus =
    | Null | Unborn | Cub | Adult | Absent | King | Dead | Visiting
    | Unnamed(code: int)

  /** A status as the C# enum holds it: named statuses never masquerade as
      an `Unnamed` code in 0..7. */
  predicate Canonical(st: LionStatus)
  {
    st.Unnamed? ==> !(0 <= st.code < 8)
  }

  /** The cast `(LionStatus) code`. */
  function StatusOfCode(code: int): (st: LionStatus)
    ensures Canonical(st)
    ensures st.Unnamed? <==> !(0 <= code < 8)
  {
    match code
    case 0 => Null
    case 1 => Unborn
    case 2 => Cub
    case 3 => Adult
    case 4 => Absent
    case 5 => King
    case 6 => Dead
    case 7 => Visiting
    case _ => Unnamed(code)
  }

  /** The cast back, `(int) status`. */
  function CodeOf(st: LionStatus): int
  {
    match st
    case Null => 0
    case Unborn => 1
    case Cub => 2
    case Adult => 3
    case Absent => 4
    case King => 5
    case Dead => 6
    case Visiting => 7
    case Unnamed(c) => c
  }

  /** Casting a code to the enum and back loses nothing. */
  lemma CodeRoundTrip(code: int)
    ensures CodeOf(StatusOfCode(code)) == code
  {
  }

  /** Casting a canonical status to its code and back loses nothing. */
  lemma StatusRoundTrip(st: LionStatus)
    requires Canonical(st)
    ensures StatusOfCode(CodeOf(st)) == st
  {
  }

  /** `(LionStatus) (ch - '0')`: the status a character of the table encodes. */
  function DigitStatus(ch: char): (st: LionStatus)
    ensures CodeOf(st) == ch as int - '0' as int
    ensures '0' <= ch <= '7' <==> !st.Unnamed?
  {
    CodeRoundTrip(ch as int - '0' as int);
    StatusOfCode(ch as int - '0' as int)
  }

  /** A lion. `mother` is `None` where the C# field is null (visitors);
      every lion decoded from the table has `Some`, possibly `Some("")`. */
  datatype Lion = Lion(name: string, mother: Option<string>, male: bool, status: seq<LionStatus>)

  /** The lion has a status for every observed year. */
  predicate Observed(l: Lion)
  {
    |l.status| >= Years
  }

  // ---------------------------------------------------------------------
  // String helpers: String.Split, String.Replace (removing a character),
  // String.PadRight

  /** `s.Split(sep)`: the pieces between separators, always at least one. */
  function Split(s: string, sep: char): (parts: seq<string>)
    ensures |parts| >= 1
    ensures forall k :: 0 <= k < |parts| ==> sep !in parts[k]
    decreases |s|
  {
    if |s| == 0 then [""]
    else
      var rest := Split(s[1..], sep);
      if s[0] == sep then [""] + rest
      else [[s[0]] + rest[0]] + rest[1..]
  }

  /** `string.Join(sep, parts)`, the inverse of `Split`. */
  function Join(parts: seq<string>, sep: char): string
    requires |parts| >= 1
  {
    if |parts| == 1 then parts[0] else parts[0] + [sep] + Join(parts[1..], sep)
  }

  /** Joining the pieces of a split restores the original string. */
  lemma {:induction false} JoinSplit(s: string, sep: char)
    ensures Join(Split(s, sep), sep) == s
    decreases |s|
  {
    if |s| > 0 {
      JoinSplit(s[1..], sep);
      var rest := Split(s[1..], sep);
      if s[0] == sep {
        assert Split(s, sep)[1..] == rest;
      } else {
        var parts := Split(s, sep);
        if |rest| > 1 {
          assert parts[1..] == rest[1..];
        }
      }
    }
  }

  /** A piece without separators splits to itself. */
  lemma {:induction false} SplitPlain(s: string, sep: char)
    requires sep !in s
    ensures Split(s, sep) == [s]
    decreases |s|
  {
    if |s| > 0 {
      assert sep !in s[1..];
      SplitPlain(s[1..], sep);
      assert [s[0]] + s[1..] == s;
    }
  }

  /** Splitting `p + sep + t` yields `p` followed by the pieces of `t`. */
  lemma {:induction false} SplitFirst(p: string, sep: char, t: string)
    requires sep !in p
    ensures Split(p + [sep] + t, sep) == [p] + Split(t, sep)
    decreases |p|
  {
    if |p| == 0 {
      assert [sep] + t == p + [sep] + t;
      assert ([sep] + t)[1..] == t;
    } else {
      assert (p + [sep] + t)[1..] == p[1..] + [sep] + t;
      assert sep !in p[1..];
      SplitFirst(p[1..], sep, t);
      assert [p[0]] + p[1..] == p;
    }
  }

  /** Splitting a join of separator-free pieces gives the pieces back. */
  lemma {:induction false} SplitJoin(parts: seq<string>, sep: char)
    requires |parts| >= 1
    requires forall k :: 0 <= k < |parts| ==> sep !in parts[k]
    ensures Split(Join(parts, sep), sep) == parts
    decreases |parts|
  {
    if |parts| == 1 {
      SplitPlain(parts[0], sep);
    } else {
      SplitJoin(parts[1..], sep);
      SplitFirst(parts[0], sep, Join(parts[1..], sep));
      assert [parts[0]] + parts[1..] == parts;
    }
  }

  /** `s.Replace("\r", "")` for a one-character pattern: drop every `c`. */
  function Without(s: string, c: char): (r: string)
    ensures c !in r
    ensures forall x :: x in r <==> x in s && x != c
    ensures c !in s ==> r == s
  {
    if |s| == 0 then ""
    else
      var rest := Without(s[1..], c);
      assert s == [s[0]] + s[1..];
      if s[0] == c then rest else [s[0]] + rest
  }

  /** Removing a character distributes over concatenation; with
      `WithoutSingle` this pins the result down: the kept characters stay in
      their order and multiplicity. */
  lemma {:induction false} WithoutAppend(a: string, b: string, c: char)
    ensures Without(a + b, c) == Without(a, c) + Without(b, c)
    decreases |a|
  {
    if |a| > 0 {
      assert (a + b)[1..] == a[1..] + b;
      WithoutAppend(a[1..], b, c);
    } else {
      assert a + b == b;
    }
  }

  /** On one character: dropped exactly when it is `c`. */
  lemma WithoutSingle(x: char, c: char)
    ensures Without([x], c) == if x == c then [] else [x]
  {
    assert [x][1..] == [];
  }

  /** `s.PadRight(width, fill)`. */
  function PadRight(s: string, width: nat, fill: char): (r: string)
    ensures |r| == if |s| >= width then |s| else width
    ensures r[..|s|] == s
    ensures forall i :: |s| <= i < |r| ==> r[i] == fill
  {
    if |s| >= width then s else s + seq(width - |s|, _ => fill)
  }

  // ---------------------------------------------------------------------
  // Decoding the pride table

  /** The timeline encoded by a digit string: padded to the observation
      window with '6' (Dead), one status per character. */
  function Timeline(digits: string): (t: seq<LionStatus>)
    ensures |t| == if |digits| >= Years then |digits| else Years
    ensures forall i :: 0 <= i < |digits| ==> t[i] == DigitStatus(digits[i])
    ensures forall i :: |digits| <= i < |t| ==> t[i] == Dead
  {
    var padded := PadRight(digits, Years, '6');
    assert forall i :: 0 <= i < |digits| ==> padded[i] == digits[i] by {
      assert padded[..|digits|] == digits;
    }
    seq(|padded|, i requires 0 <= i < |padded| => DigitStatus(padded[i]))
  }

  /** The lion described by the fields name, sex, mother, statuses. */
  function FromFields(fields: seq<string>): Lion
    requires |fields| >= 4
  {
    Lion(fields[0], Some(fields[2]), fields[1] == "m", Timeline(fields[3]))
  }

  /** One line of the table; a line with fewer than four fields makes the
      indexer `arr[3]` throw. */
  function ParseLine(line: string): (r: Result<Lion>)
    ensures r.Failure? <==> |Split(line, ',')| < 4
    ensures r.Failure? ==> r.fault == IndexOutOfRange
    ensures r.Success? ==>
      var fields := Split(line, ',');
      && r.value.name == fields[0]
      && (r.value.male <==> fields[1] == "m")
      && r.value.mother == Some(fields[2])
      && |r.value.status| == (if |fields[3]| >= Years then |fields[3]| else Years)
      && (forall i :: 0 <= i < |fields[3]| ==> r.value.status[i] == DigitStatus(fields[3][i]))
      && (forall i :: |fields[3]| <= i < |r.value.status| ==> r.value.status[i] == Dead)
  {
    var fields := Split(line, ',');
    if |fields| < 4 then Failure(IndexOutOfRange) else Success(FromFields(fields))
  }

  /** Parses every line, failing at the first malformed one. */
  function ParseLines(lines: seq<string>): (r: Result<seq<Lion>>)
    ensures r.Success? <==> forall k :: 0 <= k < |lines| ==> ParseLine(lines[k]).Success?
    ensures r.Success? ==>
      && |r.value| == |lines|
      && forall k :: 0 <= k < |lines| ==> r.value[k] == ParseLine(lines[k]).value
  {
    if |lines| == 0 then Success([])
    else
      match ParseLine(lines[0])
      case Failure(f) => Failure(f)
      case Success(lion) =>
        match ParseLines(lines[1..])
        case Failure(f) => Failure(f)
        case Success(rest) => Success([lion] + rest)
  }

  /** The whole table: carriage returns removed, split into lines, one lion
      per line. */
  function Decode(text: string): Result<seq<Lion>>
  {
    ParseLines(Split(Without(text, '\r'), '\n'))
  }

  /** Every decoded lion whose digit field has at most sixteen characters has a
      timeline of exactly sixteen entries: each encoded digit `d` becomes the
      status with code `d`, and every later year is Dead. */
  lemma DecodedTimeline(text: string, k: nat)
    requires Decode(text).Success?
    requires k < |Decode(text).value|
    ensures
      var line := Split(Without(text, '\r'), '\n')[k];
      var digits := Split(line, ',')[3];
      var st := Decode(text).value[k].status;
      |digits| <= Years ==>
        && |st| == Years
        && (forall i :: 0 <= i < |digits| ==> CodeOf(st[i]) == digits[i] as int - '0' as int)
        && (forall i :: |digits| <= i < Years ==> st[i] == Dead)
  {
  }

  /** A character of a join is a separator or a character of some piece. */
  lemma {:induction false} JoinChars(parts: seq<string>, sep: char, x: char)
    requires |parts| >= 1
    requires x in Join(parts, sep)
    ensures x == sep || exists k :: 0 <= k < |parts| && x in parts[k]
    decreases |parts|
  {
    if |parts| > 1 {
      if x !in parts[0] && x != sep {
        JoinChars(parts[1..], sep, x);
        var k :| 0 <= k < |parts[1..]| && x in parts[1..][k];
        assert x in parts[k + 1];
      }
    }
  }
}
