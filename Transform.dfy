/**
 * The transform step: adds the cabin parts, the group id and the family
 * name to a passenger frame, in place.
 */
module Transform {
  import opened Wrappers
  import opened Exceptions
  import opened PyStr
  import opened Frames

  const CABIN := "Cabin"
  const NAME := "Name"
  const CABIN_DECK := "CabinDeck"
  const CABIN_NUM := "CabinNum"
  const CABIN_SIDE := "CabinSide"
  const CABIN_COLUMNS := [CABIN_DECK, CABIN_NUM, CABIN_SIDE]
  const GROUP_ID := "GroupId"
  const FAMILY_NAME := "FamilyName"
  /** The five columns the transform writes. */
  const DERIVED := {CABIN_DECK, CABIN_NUM, CABIN_SIDE, GROUP_ID, FAMILY_NAME}

  const INT32_MIN := -0x8000_0000
  const INT32_MAX := 0x7FFF_FFFF
  /** The range of a 64-bit C `long`. */
  const LONG_MIN := -0x8000_0000_0000_0000
  const LONG_MAX := 0x7FFF_FFFF_FFFF_FFFF

  /**
   * How many fields a cell contributes to `.str.split(sep, expand=True)`:
   * its parts when it is text, one missing field otherwise.
   */
  function FieldCount(c: Cell, sep: char): (n: nat)
    ensures c.Text? ==> n == multiset(c.text)[sep] + 1
    ensures !c.Text? ==> n == 1
  {
    if c.Text? then SplitCount(c.text, sep); |Split(c.text, sep)| else 1
  }

  /** The number of columns `.str.split(sep, expand=True)` produces: the widest row. */
  function SplitWidth(col: seq<Cell>, sep: char): (w: nat)
    ensures forall i :: 0 <= i < |col| ==> FieldCount(col[i], sep) <= w
    ensures col == [] ==> w == 0
    ensures col != [] ==> exists i :: 0 <= i < |col| && FieldCount(col[i], sep) == w
  {
    if col == [] then 0
    else
      var w := SplitWidth(col[1..], sep);
      var f := FieldCount(col[0], sep);
      assert forall i :: 1 <= i < |col| ==> col[i] == col[1..][i - 1];
      if f >= w then f else w
  }

  /** Field `k` of a cell split on `sep`; rows with fewer fields are padded with missing values. */
  function Field(c: Cell, sep: char, k: nat): (f: Cell)
    ensures f.Text? ==> c.Text? && sep !in f.text
    ensures k >= FieldCount(c, sep) ==> f == Missing
  {
    if c.Text? && k < |Split(c.text, sep)| then Text(Split(c.text, sep)[k]) else Missing
  }

  /** `col.str.split(sep, expand=True)`, given as its list of columns. */
  function ExpandSplit(col: seq<Cell>, sep: char): (expanded: seq<seq<Cell>>)
    ensures |expanded| == SplitWidth(col, sep)
    ensures forall k :: 0 <= k < |expanded| ==> |expanded[k]| == |col|
  {
    seq(SplitWidth(col, sep), k requires 0 <= k => seq(|col|, i requires 0 <= i < |col| => Field(col[i], sep, k)))
  }

  /** Cell `i` of column `k` of an expanded split is field `k` of cell `i`. */
  lemma ExpandSplitAt(col: seq<Cell>, sep: char, k: nat, i: nat)
    requires k < SplitWidth(col, sep) && i < |col|
    ensures ExpandSplit(col, sep)[k][i] == Field(col[i], sep, k)
  {
  }

  /**
   * Narrowing a C `long` to `int32`: the value modulo 2^32, read back as a
   * signed 32-bit number.
   */
  function WrapInt32(v: int): (w: int)
    ensures INT32_MIN <= w <= INT32_MAX
    ensures (w - v) % 0x1_0000_0000 == 0
    ensures INT32_MIN <= v <= INT32_MAX ==> w == v
  {
    (v + 0x8000_0000) % 0x1_0000_0000 - 0x8000_0000
  }

  /**
   * The group id of one row label: the text before the first `_`, read by
   * `int()`, converted to a C `long` (too large a value raises
   * `OverflowError`) and narrowed to `int32` without a range check.
   */
  function GroupIdOf(rowLabel: string): (r: Result<int, Exception>)
    ensures r.Ok? ==> INT32_MIN <= r.value <= INT32_MAX
    ensures r.Err? ==> r.error.InvalidIntLiteral? || r.error.LongOverflow?
  {
    var value :- ParseInt(Split(rowLabel, '_')[0]);
    if LONG_MIN <= value <= LONG_MAX then Ok(WrapInt32(value)) else Err(LongOverflow(value))
  }

  /** The text before the first separator is the first field. */
  lemma FirstField(prefix: string, rest: string, sep: char)
    requires sep !in prefix
    ensures Split(prefix + [sep] + rest, sep)[0] == prefix
  {
    SplitSeparatorFree(prefix, [sep] + rest, sep);
    assert prefix + [sep] + rest == prefix + ([sep] + rest);
    assert ([sep] + rest)[1..] == rest;
    assert prefix + "" == prefix;
  }

  /**
   * A passenger id `<group>_<member>` whose group is written with leading
   * zeros, in at most `MAX_STR_DIGITS` digits, gets the group's value,
   * `"0001_01"` giving 1, when it fits `int32`; a larger group wraps around
   * modulo 2^32, and one beyond a C `long` raises.
   */
  lemma GroupIdOfPassengerId(zeros: string, group: nat, member: string)
    requires forall i :: 0 <= i < |zeros| ==> zeros[i] == '0'
    requires |zeros| + |FormatNat(group)| <= MAX_STR_DIGITS
    ensures group <= INT32_MAX ==> GroupIdOf(zeros + FormatNat(group) + "_" + member) == Ok(group)
    ensures GroupIdOf(zeros + FormatNat(group) + "_" + member)
            == if group <= LONG_MAX then Ok(WrapInt32(group)) else Err(LongOverflow(group))
  {
    var prefix := zeros + FormatNat(group);
    ParseZeroPadded(zeros, group);
    FirstField(prefix, member, '_');
    GroupIdOfParsed(prefix + "_" + member, prefix, group);
  }

  /** A label whose first field parses to `value` gets that value narrowed, or `OverflowError`. */
  lemma GroupIdOfParsed(rowLabel: string, prefix: string, value: int)
    requires Split(rowLabel, '_')[0] == prefix && ParseInt(prefix) == Ok(value)
    ensures GroupIdOf(rowLabel)
            == if LONG_MIN <= value <= LONG_MAX then Ok(WrapInt32(value)) else Err(LongOverflow(value))
  {
  }

  /** A label with nothing before its first `_`, such as `"_01"`, has no group id: `ValueError`. */
  lemma GroupIdOfEmptyGroup(member: string)
    ensures GroupIdOf("_" + member) == Err(InvalidIntLiteral(""))
  {
    FirstField("", member, '_');
    assert "" + ['_'] + member == "_" + member;
    NoDigitFails("");
  }

  /**
   * A group written with more than `MAX_STR_DIGITS` digits has no group id,
   * whatever its value: `int()` raises `ValueError` before any range check.
   */
  lemma GroupIdOfTooLong(zeros: string, group: nat, member: string)
    requires forall i :: 0 <= i < |zeros| ==> zeros[i] == '0'
    requires |zeros| + |FormatNat(group)| > MAX_STR_DIGITS
    ensures GroupIdOf(zeros + FormatNat(group) + "_" + member) == Err(InvalidIntLiteral(zeros + FormatNat(group)))
  {
    var prefix := zeros + FormatNat(group);
    assert forall i :: 0 <= i < |prefix| ==> IsDigit(prefix[i]);
    assert '_' !in prefix;
    FirstField(prefix, member, '_');
    assert prefix + ['_'] + member == prefix + "_" + member;
    assert !IsSpace(prefix[0]) && !IsSpace(prefix[|prefix| - 1]);
    StripUnspaced(prefix);
    DigitLimitFails(prefix);
  }

  /** A label whose group holds a character `int()` rejects has no group id: `ValueError`. */
  lemma GroupIdOfNonNumeric(rowLabel: string, j: nat)
    requires var prefix := Split(rowLabel, '_')[0];
      j < |prefix| && !IsDigit(prefix[j]) && !IsSpace(prefix[j]) && prefix[j] != '+' && prefix[j] != '-'
    ensures GroupIdOf(rowLabel) == Err(InvalidIntLiteral(Split(rowLabel, '_')[0]))
  {
    NonDigitFails(Split(rowLabel, '_')[0], j);
  }

  /**
   * Converts every row label with `convert`, the way `astype` does: the
   * values in row order, or the error of the first label that failed.
   */
  function Convert(labels: seq<string>, convert: string -> Result<int, Exception>): (r: Result<seq<Cell>, Exception>)
    ensures r.Ok? ==> |r.value| == |labels|
  {
    if labels == [] then Ok([])
    else
      var value :- convert(labels[0]);
      var rest :- Convert(labels[1..], convert);
      Ok([Int(value)] + rest)
  }

  /** The column is produced exactly when every label converts, and then holds every label's value. */
  lemma {:induction false} ConvertOk(labels: seq<string>, convert: string -> Result<int, Exception>)
    ensures Convert(labels, convert).Ok? <==> forall i :: 0 <= i < |labels| ==> convert(labels[i]).Ok?
    ensures Convert(labels, convert).Ok? ==>
      forall i :: 0 <= i < |labels| ==> Convert(labels, convert).value[i] == Int(convert(labels[i]).value)
  {
    if labels != [] {
      var tail := labels[1..];
      ConvertOk(tail, convert);
      if convert(labels[0]).Ok? && Convert(tail, convert).Ok? {
        forall i | 0 <= i < |labels|
          ensures convert(labels[i]).Ok? && Convert(labels, convert).value[i] == Int(convert(labels[i]).value)
        {
          if i > 0 { assert labels[i] == tail[i - 1]; }
        }
      } else if convert(labels[0]).Ok? {
        var i :| 0 <= i < |tail| && !convert(tail[i]).Ok?;
        assert labels[i + 1] == tail[i];
      }
    }
  }

  /** A failing conversion reports the error of the first label that failed. */
  lemma {:induction false} ConvertFirstError(labels: seq<string>, convert: string -> Result<int, Exception>)
    requires Convert(labels, convert).Err?
    ensures exists i :: && 0 <= i < |labels| && convert(labels[i]) == Err(Convert(labels, convert).error)
                        && forall j :: 0 <= j < i ==> convert(labels[j]).Ok?
  {
    var e := Convert(labels, convert).error;
    if convert(labels[0]).Err? {
      assert convert(labels[0]) == Err(e);
    } else {
      var tail := labels[1..];
      assert Convert(tail, convert) == Err(e);
      ConvertFirstError(tail, convert);
      var i :| && 0 <= i < |tail| && convert(tail[i]) == Err(e)
               && forall j :: 0 <= j < i ==> convert(tail[j]).Ok?;
      assert labels[i + 1] == tail[i];
      forall j | 0 <= j < i + 1 ensures convert(labels[j]).Ok? {
        if j > 0 { assert labels[j] == tail[j - 1]; }
      }
    }
  }

  /** The `GroupId` column for a whole index (line 46 of the transform). */
  function GroupIds(index: seq<string>): (r: Result<seq<Cell>, Exception>)
    ensures r.Ok? ==> |r.value| == |index|
  {
    Convert(index, GroupIdOf)
  }

  /**
   * The column is produced exactly when every row label converts, and then
   * holds each row's group id; otherwise the error is that of the first
   * label that does not convert.
   */
  lemma GroupIdsSpec(index: seq<string>)
    ensures GroupIds(index).Ok? <==> forall i :: 0 <= i < |index| ==> GroupIdOf(index[i]).Ok?
    ensures GroupIds(index).Ok? ==>
      forall i :: 0 <= i < |index| ==> GroupIds(index).value[i] == Int(GroupIdOf(index[i]).value)
    ensures GroupIds(index).Err? ==>
      exists i :: && 0 <= i < |index| && GroupIdOf(index[i]) == Err(GroupIds(index).error)
                  && forall j :: 0 <= j < i ==> GroupIdOf(index[j]).Ok?
  {
    ConvertOk(index, GroupIdOf);
    if GroupIds(index).Err? {
      ConvertFirstError(index, GroupIdOf);
    }
  }

  /** Line 45: `df[['CabinDeck', 'CabinNum', 'CabinSide']] = df.Cabin.str.split('/', expand=True)`. */
  function AssignCabinParts(t: Table): (r: (Table, Outcome<Exception>))
    requires t.Valid()
    ensures r.0.Valid() && r.0.index == t.index
  {
    if CABIN !in t.data then (t, Fail(AttributeError(CABIN)))
    else
      var parts := ExpandSplit(t.data[CABIN], '/');
      if |parts| != |CABIN_COLUMNS| then (t, Fail(ColumnsLengthMismatch(|CABIN_COLUMNS|, |parts|)))
      else (t.WithAll(CABIN_COLUMNS, parts), Pass)
  }

  /** Line 46: `df['GroupId'] = ...astype('int32')`. */
  function AssignGroupIds(t: Table): (r: (Table, Outcome<Exception>))
    requires t.Valid()
    ensures r.0.Valid() && r.0.index == t.index
  {
    match GroupIds(t.index)
    case Err(e) => (t, Fail(e))
    case Ok(ids) => (t.With(GROUP_ID, ids), Pass)
  }

  /** Line 47: `df['FamilyName'] = df.Name.str.split(' ', expand=True)[1]`. */
  function AssignFamilyNames(t: Table): (r: (Table, Outcome<Exception>))
    requires t.Valid()
    ensures r.0.Valid() && r.0.index == t.index
  {
    if NAME !in t.data then (t, Fail(AttributeError(NAME)))
    else
      var tokens := ExpandSplit(t.data[NAME], ' ');
      if |tokens| < 2 then (t, Fail(MissingColumnLabel(1)))
      else (t.With(FAMILY_NAME, tokens[1]), Pass)
  }

  /**
   * What `transform(df)` does to a frame holding `t`: the frame it leaves
   * behind (partly updated when a later line raises) and whether it
   * returned or raised.
   */
  function Transformed(t: Table): (r: (Table, Outcome<Exception>))
    requires t.Valid()
    ensures r.0.Valid() && r.0.index == t.index
  {
    var (t1, cabin) := AssignCabinParts(t);
    if cabin.Fail? then (t1, cabin)
    else
      var (t2, groups) := AssignGroupIds(t1);
      if groups.Fail? then (t2, groups)
      else AssignFamilyNames(t2)
  }

  /**
   * `transform(df)`: assigns the derived columns to `df` and returns the
   * same frame, or raises, leaving the columns assigned so far in place.
   */
  method Transform(df: Frame) returns (r: Result<Frame, Exception>)
    requires df.Valid()
    modifies df
    ensures df.Valid()
    ensures df.Value() == Transformed(old(df.Value())).0
    ensures r == match Transformed(old(df.Value())).1
                 case Pass => Ok(df)
                 case Fail(e) => Err(e)
  {
    if CABIN !in df.data {
      return Err(AttributeError(CABIN));
    }
    var parts := ExpandSplit(df.data[CABIN], '/');
    var cabinOutcome := df.SetColumns(CABIN_COLUMNS, parts);
    if cabinOutcome.Fail? {
      return Err(cabinOutcome.error);
    }
    var ids := GroupIds(df.index);
    if ids.Err? {
      return Err(ids.error);
    }
    df.SetColumn(GROUP_ID, ids.value);
    if NAME !in df.data {
      return Err(AttributeError(NAME));
    }
    var tokens := ExpandSplit(df.data[NAME], ' ');
    if |tokens| < 2 {
      return Err(MissingColumnLabel(1));
    }
    df.SetColumn(FAMILY_NAME, tokens[1]);
    return Ok(df);
  }
}

/** What the transform promises about the frame it leaves behind. */
module TransformProperties {
  import opened Wrappers
  import opened Exceptions
  import opened PyStr
  import opened Frames
  import opened Transform

  /** The labels the transform reads and writes are all different. */
  lemma LabelsDistinct()
    ensures CABIN != NAME
    ensures CABIN !in DERIVED && NAME !in DERIVED
    ensures |CABIN_COLUMNS| == 3
    ensures CABIN_COLUMNS[0] == CABIN_DECK && CABIN_COLUMNS[1] == CABIN_NUM && CABIN_COLUMNS[2] == CABIN_SIDE
    ensures CABIN_DECK != CABIN_NUM && CABIN_DECK != CABIN_SIDE && CABIN_NUM != CABIN_SIDE
    ensures GROUP_ID != FAMILY_NAME && GROUP_ID !in CABIN_COLUMNS && FAMILY_NAME !in CABIN_COLUMNS
  {
    assert CABIN_DECK[5] != CABIN_SIDE[5];
  }

  /** The three cabin part labels, as a list, have no repeats. */
  lemma CabinColumnsDistinct()
    ensures Distinct(CABIN_COLUMNS)
  {
    LabelsDistinct();
  }

  /** Line 45 either raises and changes nothing, or writes the three cabin parts and nothing else. */
  lemma CabinPartsEffect(t: Table)
    requires t.Valid()
    ensures var (r, outcome) := AssignCabinParts(t);
      && (outcome == Pass <==> CABIN in t.data && SplitWidth(t.data[CABIN], '/') == 3)
      && (outcome.Fail? ==> r == t)
      && AssignsOnly(t, r, {CABIN_DECK, CABIN_NUM, CABIN_SIDE})
      && (outcome == Pass ==>
            var parts := ExpandSplit(t.data[CABIN], '/');
            && CABIN_DECK in r.data && r.data[CABIN_DECK] == parts[0]
            && CABIN_NUM in r.data && r.data[CABIN_NUM] == parts[1]
            && CABIN_SIDE in r.data && r.data[CABIN_SIDE] == parts[2])
  {
    LabelsDistinct();
    if CABIN in t.data {
      var parts := ExpandSplit(t.data[CABIN], '/');
      if |parts| == 3 {
        CabinColumnsDistinct();
        WithAllEffect(t, CABIN_COLUMNS, parts);
        WithAllStores(t, CABIN_COLUMNS, parts);
      }
    }
  }

  /**
   * Line 46 either raises and changes nothing, or writes the group ids and
   * nothing else. On a frame without rows pandas' expanded split of the
   * index raises `TypeError` where this model succeeds; `transform` never
   * reaches line 46 then, because line 45 already fails with width 0.
   */
  lemma GroupIdsEffect(t: Table)
    requires t.Valid()
    ensures var (r, outcome) := AssignGroupIds(t);
      && (outcome == Pass <==> forall i :: 0 <= i < |t.index| ==> GroupIdOf(t.index[i]).Ok?)
      && (outcome.Fail? ==> r == t)
      && AssignsOnly(t, r, {GROUP_ID})
      && (outcome == Pass ==>
            && GROUP_ID in r.data
            && forall i :: 0 <= i < |t.index| ==> r.data[GROUP_ID][i] == Int(GroupIdOf(t.index[i]).value))
  {
    GroupIdsSpec(t.index);
  }

  /** Line 47 either raises and changes nothing, or writes the family names and nothing else. */
  lemma FamilyNamesEffect(t: Table)
    requires t.Valid()
    ensures var (r, outcome) := AssignFamilyNames(t);
      && (outcome == Pass <==> NAME in t.data && SplitWidth(t.data[NAME], ' ') >= 2)
      && (outcome.Fail? ==> r == t)
      && AssignsOnly(t, r, {FAMILY_NAME})
      && (outcome == Pass ==> FAMILY_NAME in r.data && r.data[FAMILY_NAME] == ExpandSplit(t.data[NAME], ' ')[1])
  {
  }

  /**
   * Whether it returns or raises, the transform keeps the rows and their
   * labels in order, keeps every column label in its position, adds only
   * derived columns and leaves every other column's cells untouched.
   */
  lemma TransformKeepsRows(t: Table)
    requires t.Valid()
    ensures AssignsOnly(t, Transformed(t).0, DERIVED)
  {
    CabinPartsKeeps(t);
    var t1 := AssignCabinParts(t).0;
    if AssignCabinParts(t).1.Pass? {
      GroupIdsKeeps(t1);
      var t2 := AssignGroupIds(t1).0;
      AssignsOnlyChain(t, t1, t2, DERIVED);
      if AssignGroupIds(t1).1.Pass? {
        FamilyNamesKeeps(t2);
        AssignsOnlyChain(t, t2, AssignFamilyNames(t2).0, DERIVED);
      }
    }
  }

  /** Each line of `transform` assigns only derived columns. */
  lemma CabinPartsKeeps(t: Table)
    requires t.Valid()
    ensures AssignsOnly(t, AssignCabinParts(t).0, DERIVED)
  {
    CabinPartsEffect(t);
    AssignsOnlyWiden(t, AssignCabinParts(t).0, {CABIN_DECK, CABIN_NUM, CABIN_SIDE}, DERIVED);
  }

  lemma GroupIdsKeeps(t: Table)
    requires t.Valid()
    ensures AssignsOnly(t, AssignGroupIds(t).0, DERIVED)
  {
    GroupIdsEffect(t);
    AssignsOnlyWiden(t, AssignGroupIds(t).0, {GROUP_ID}, DERIVED);
  }

  lemma FamilyNamesKeeps(t: Table)
    requires t.Valid()
    ensures AssignsOnly(t, AssignFamilyNames(t).0, DERIVED)
  {
    FamilyNamesEffect(t);
    AssignsOnlyWiden(t, AssignFamilyNames(t).0, {FAMILY_NAME}, DERIVED);
  }

  /**
   * For a width of two or more, an expanded split is exactly `n` wide when
   * no text cell has more than `n` parts and some text cell has `n`.
   */
  lemma WidthIs(col: seq<Cell>, sep: char, n: nat)
    requires n >= 2
    ensures SplitWidth(col, sep) == n <==>
      && (forall i :: 0 <= i < |col| && col[i].Text? ==> |Split(col[i].text, sep)| <= n)
      && (exists i :: 0 <= i < |col| && col[i].Text? && |Split(col[i].text, sep)| == n)
  {
    var w := SplitWidth(col, sep);
    if w == n {
      var i :| 0 <= i < |col| && FieldCount(col[i], sep) == w;
      assert col[i].Text?;
    }
    if exists i :: 0 <= i < |col| && col[i].Text? && |Split(col[i].text, sep)| == n {
      var i :| 0 <= i < |col| && col[i].Text? && |Split(col[i].text, sep)| == n;
      assert FieldCount(col[i], sep) == n;
      if forall i :: 0 <= i < |col| && col[i].Text? ==> |Split(col[i].text, sep)| <= n {
        var j :| 0 <= j < |col| && FieldCount(col[j], sep) == w;
      }
    }
  }

  /** For two or more, an expanded split is at least `n` wide when some text cell has `n` parts. */
  lemma WidthAtLeast(col: seq<Cell>, sep: char, n: nat)
    requires n >= 2
    ensures SplitWidth(col, sep) >= n <==>
      exists i :: 0 <= i < |col| && col[i].Text? && |Split(col[i].text, sep)| >= n
  {
    var w := SplitWidth(col, sep);
    if w >= n {
      var i :| 0 <= i < |col| && FieldCount(col[i], sep) == w;
      assert col[i].Text?;
    }
    if exists i :: 0 <= i < |col| && col[i].Text? && |Split(col[i].text, sep)| >= n {
      var i :| 0 <= i < |col| && col[i].Text? && |Split(col[i].text, sep)| >= n;
      assert FieldCount(col[i], sep) >= n;
    }
  }

  /**
   * The transform returns exactly when the frame has a `Cabin` column whose
   * values have at most three `/`-separated parts with at least one having
   * three, every row label's group parses within the range of a C `long`,
   * and the frame has a `Name` column in which at least one name has two
   * space-separated tokens.
   */
  lemma TransformSucceedsIff(t: Table)
    requires t.Valid()
    ensures Transformed(t).1 == Pass <==>
      && CABIN in t.data
      && (forall i :: 0 <= i < |t.index| && t.data[CABIN][i].Text? ==> |Split(t.data[CABIN][i].text, '/')| <= 3)
      && (exists i :: 0 <= i < |t.index| && t.data[CABIN][i].Text? && |Split(t.data[CABIN][i].text, '/')| == 3)
      && (forall i :: 0 <= i < |t.index| ==> GroupIdOf(t.index[i]).Ok?)
      && NAME in t.data
      && (exists i :: 0 <= i < |t.index| && t.data[NAME][i].Text? && |Split(t.data[NAME][i].text, ' ')| >= 2)
  {
    LabelsDistinct();
    CabinPartsEffect(t);
    if CABIN in t.data {
      WidthIs(t.data[CABIN], '/', 3);
    }
    var (t1, cabin) := AssignCabinParts(t);
    if cabin.Pass? {
      GroupIdsEffect(t1);
      var (t2, groups) := AssignGroupIds(t1);
      if groups.Pass? {
        FamilyNamesEffect(t2);
        if NAME in t.data {
          assert t2.data[NAME] == t.data[NAME];
          WidthAtLeast(t.data[NAME], ' ', 2);
        }
        assert Transformed(t) == AssignFamilyNames(t2);
      }
    }
  }

  /**
   * On success each row gets: the first, second and third `/`-separated
   * part of its cabin (kept as text, missing where the cabin has fewer
   * parts or is missing); the group id of its row label; and the second
   * space-separated token of its name (missing for a one-token or missing
   * name).
   */
  lemma TransformedCells(t: Table, i: nat)
    requires t.Valid() && Transformed(t).1 == Pass && i < |t.index|
    ensures var r := Transformed(t).0;
      && CABIN in t.data && NAME in t.data && DERIVED <= r.data.Keys
      && (if t.data[CABIN][i].Text? then
            var parts := Split(t.data[CABIN][i].text, '/');
            && r.data[CABIN_DECK][i] == Text(parts[0])
            && r.data[CABIN_NUM][i] == (if |parts| > 1 then Text(parts[1]) else Missing)
            && r.data[CABIN_SIDE][i] == (if |parts| > 2 then Text(parts[2]) else Missing)
          else
            r.data[CABIN_DECK][i] == r.data[CABIN_NUM][i] == r.data[CABIN_SIDE][i] == Missing)
      && GroupIdOf(t.index[i]).Ok?
      && r.data[GROUP_ID][i] == Int(GroupIdOf(t.index[i]).value)
      && (if t.data[NAME][i].Text? then
            var tokens := Split(t.data[NAME][i].text, ' ');
            r.data[FAMILY_NAME][i] == if |tokens| > 1 then Text(tokens[1]) else Missing
          else
            r.data[FAMILY_NAME][i] == Missing)
  {
    LabelsDistinct();
    CabinPartsEffect(t);
    var (t1, cabin) := AssignCabinParts(t);
    GroupIdsEffect(t1);
    var (t2, groups) := AssignGroupIds(t1);
    FamilyNamesEffect(t2);
    var r := AssignFamilyNames(t2).0;
    assert Transformed(t).0 == r;
    var parts := ExpandSplit(t.data[CABIN], '/');
    assert r.data[CABIN_DECK] == parts[0] && r.data[CABIN_NUM] == parts[1] && r.data[CABIN_SIDE] == parts[2];
    ExpandSplitAt(t.data[CABIN], '/', 0, i);
    ExpandSplitAt(t.data[CABIN], '/', 1, i);
    ExpandSplitAt(t.data[CABIN], '/', 2, i);
    assert r.data[GROUP_ID] == t2.data[GROUP_ID];
    assert t2.data[NAME] == t.data[NAME];
    ExpandSplitAt(t.data[NAME], ' ', 1, i);
  }

  lemma AppendFive<T>(s: seq<T>, a: T, b: T, c: T, d: T, e: T)
    ensures s + [a, b, c] + [d] + [e] == s + [a, b, c, d, e]
  {
  }

  /** Line 45 on a frame without the cabin part labels appends them. */
  lemma CabinPartsAppend(t: Table)
    requires t.Valid() && AssignCabinParts(t).1 == Pass
    requires CABIN_DECK !in t.data && CABIN_NUM !in t.data && CABIN_SIDE !in t.data
    ensures AssignCabinParts(t).0.columns == t.columns + CABIN_COLUMNS
  {
    CabinColumnsDistinct();
    var parts := ExpandSplit(t.data[CABIN], '/');
    assert forall c :: c in CABIN_COLUMNS ==> c !in t.data by {
      LabelsDistinct();
    }
    WithAllAppends(t, CABIN_COLUMNS, parts);
  }

  /** A frame with none of the derived columns gets all five appended, in this order. */
  lemma TransformAppendsColumns(t: Table)
    requires t.Valid() && Transformed(t).1 == Pass
    requires forall c :: c in DERIVED ==> c !in t.data
    ensures Transformed(t).0.columns == t.columns + [CABIN_DECK, CABIN_NUM, CABIN_SIDE, GROUP_ID, FAMILY_NAME]
  {
    LabelsDistinct();
    CabinPartsAppend(t);
    CabinPartsEffect(t);
    var (t1, cabin) := AssignCabinParts(t);
    GroupIdsEffect(t1);
    var (t2, groups) := AssignGroupIds(t1);
    assert GROUP_ID !in t1.data;
    assert t2.columns == t1.columns + [GROUP_ID];
    FamilyNamesEffect(t2);
    assert FAMILY_NAME !in t2.data;
    var r := AssignFamilyNames(t2).0;
    assert r.columns == t2.columns + [FAMILY_NAME];
    assert Transformed(t).0 == r;
    AppendFive(t.columns, CABIN_DECK, CABIN_NUM, CABIN_SIDE, GROUP_ID, FAMILY_NAME);
  }

  /** Line 45 on a frame that already holds its cabin parts changes nothing. */
  lemma CabinPartsStable(r: Table)
    requires r.Valid() && CABIN in r.data
    requires var parts := ExpandSplit(r.data[CABIN], '/');
      && |parts| == 3 && CABIN_DECK in r.data && CABIN_NUM in r.data && CABIN_SIDE in r.data
      && r.data[CABIN_DECK] == parts[0] && r.data[CABIN_NUM] == parts[1] && r.data[CABIN_SIDE] == parts[2]
    ensures AssignCabinParts(r) == (r, Pass)
  {
    LabelsDistinct();
    var parts := ExpandSplit(r.data[CABIN], '/');
    forall k | 0 <= k < 3 ensures CABIN_COLUMNS[k] in r.data && r.data[CABIN_COLUMNS[k]] == parts[k] {
    }
    WithAllSame(r, CABIN_COLUMNS, parts);
  }

  /**
   * The transform is idempotent: the derived columns depend only on
   * `Cabin`, the row labels and `Name`, which it never writes, so running it
   * on its own result rewrites the same cells and changes nothing; a
   * transform that raised raises again at the same line with the same
   * error and leaves the frame as it was.
   */
  lemma TransformIdempotent(t: Table)
    requires t.Valid()
    ensures Transformed(Transformed(t).0) == Transformed(t)
  {
    if Transformed(t).1 == Pass {
      TransformRepeatsSuccess(t);
    } else {
      TransformRepeatsFailure(t);
    }
  }

  /** A transform that returned, run again on its result, rewrites the same cells. */
  lemma TransformRepeatsSuccess(t: Table)
    requires t.Valid() && Transformed(t).1 == Pass
    ensures Transformed(Transformed(t).0) == Transformed(t)
  {
    LabelsDistinct();
    var r := Transformed(t).0;
    CabinPartsEffect(t);
    var (t1, cabin) := AssignCabinParts(t);
    GroupIdsEffect(t1);
    var (t2, groups) := AssignGroupIds(t1);
    FamilyNamesEffect(t2);
    assert r == AssignFamilyNames(t2).0;
    var parts := ExpandSplit(t.data[CABIN], '/');
    assert r.data[CABIN] == t.data[CABIN] && r.data[NAME] == t.data[NAME];
    assert r.data[CABIN_DECK] == parts[0] && r.data[CABIN_NUM] == parts[1] && r.data[CABIN_SIDE] == parts[2];
    // Line 45 on `r` rewrites the cabin parts it already holds.
    CabinPartsStable(r);
    // Line 46 rewrites the same group ids.
    assert r.data[GROUP_ID] == t2.data[GROUP_ID] == GroupIds(t.index).value;
    WithSame(r, GROUP_ID);
    assert AssignGroupIds(r) == (r, Pass);
    // Line 47 rewrites the same family names.
    WithSame(r, FAMILY_NAME);
    assert AssignFamilyNames(r) == (r, Pass);
  }

  /**
   * A transform that raised, run again on the frame it left, redoes the
   * lines that succeeded without change and raises again at the same line.
   */
  lemma TransformRepeatsFailure(t: Table)
    requires t.Valid() && Transformed(t).1.Fail?
    ensures Transformed(Transformed(t).0) == Transformed(t)
  {
    LabelsDistinct();
    CabinPartsEffect(t);
    var (t1, cabin) := AssignCabinParts(t);
    if cabin == Pass {
      var parts := ExpandSplit(t.data[CABIN], '/');
      GroupIdsEffect(t1);
      var (t2, groups) := AssignGroupIds(t1);
      if groups == Pass {
        // Line 47 raised on `t2`, which holds the cabin parts and the group ids.
        FamilyNamesEffect(t2);
        assert t2.data[CABIN] == t.data[CABIN];
        assert t2.data[CABIN_DECK] == parts[0] && t2.data[CABIN_NUM] == parts[1] && t2.data[CABIN_SIDE] == parts[2];
        CabinPartsStable(t2);
        WithSame(t2, GROUP_ID);
        assert AssignGroupIds(t2) == (t2, Pass);
      } else {
        // Line 46 raised on `t1`, which holds the cabin parts.
        assert t1.data[CABIN] == t.data[CABIN];
        CabinPartsStable(t1);
      }
    }
  }

  /**
   * A failing transform has already written the columns of the lines before
   * the one that raised: nothing when line 45 raises (no `Cabin` column, or
   * a split that is not three wide), the cabin parts when a later line
   * raises. `FamilyName` is never written.
   */
  lemma TransformFailureState(t: Table)
    requires t.Valid() && Transformed(t).1.Fail?
    ensures var r := Transformed(t).0;
      && (CABIN !in t.data || SplitWidth(t.data[CABIN], '/') != 3 ==> r == t)
      && (FAMILY_NAME in r.data <==> FAMILY_NAME in t.data)
      && (FAMILY_NAME in t.data ==> r.data[FAMILY_NAME] == t.data[FAMILY_NAME])
      && (CABIN in t.data && SplitWidth(t.data[CABIN], '/') == 3 ==>
            var parts := ExpandSplit(t.data[CABIN], '/');
            && r.data.Keys >= {CABIN_DECK, CABIN_NUM, CABIN_SIDE}
            && r.data[CABIN_DECK] == parts[0] && r.data[CABIN_NUM] == parts[1] && r.data[CABIN_SIDE] == parts[2])
  {
    LabelsDistinct();
    CabinPartsEffect(t);
    var r := Transformed(t).0;
    var (t1, cabin) := AssignCabinParts(t);
    if cabin.Pass? {
      GroupIdsEffect(t1);
      var (t2, groups) := AssignGroupIds(t1);
      if groups.Pass? {
        FamilyNamesEffect(t2);
        assert Transformed(t) == AssignFamilyNames(t2);
        assert r == t2;
      } else {
        assert r == t1;
      }
      var parts := ExpandSplit(t.data[CABIN], '/');
      assert r.data[CABIN_DECK] == t1.data[CABIN_DECK] == parts[0];
      assert r.data[CABIN_NUM] == t1.data[CABIN_NUM] == parts[1];
      assert r.data[CABIN_SIDE] == t1.data[CABIN_SIDE] == parts[2];
    } else {
      assert r == t;
    }
  }

  /** A cabin splits into deck, number and side. */
  lemma SplitCabinExample()
    ensures Split("B/0/P", '/') == ["B", "0", "P"]
  {
    SplitJoin(["B", "0", "P"], '/');
    assert Join(["B", "0", "P"], '/') == "B/0/P";
  }

  /**
   * Two separators in a row delimit an empty field, which the expanded
   * split holds as empty text rather than as a missing value.
   */
  lemma SplitEmptyFieldExample()
    ensures Split("a//b", '/') == ["a", "", "b"]
    ensures Field(Text("a//b"), '/', 1) == Text("")
  {
    SplitJoin(["a", "", "b"], '/');
    assert Join(["a", "", "b"], '/') == "a//b";
  }

  /** A name splits into given and family name. */
  lemma SplitNameExample()
    ensures Split("Maham Ofracculy", ' ') == ["Maham", "Ofracculy"]
  {
    SplitJoin(["Maham", "Ofracculy"], ' ');
    assert Join(["Maham", "Ofracculy"], ' ') == "Maham Ofracculy";
  }

  /** With an explicit separator, a double space is not collapsed: the second token is empty. */
  lemma SplitDoubleSpaceExample()
    ensures Split("Solam  Susent", ' ') == ["Solam", "", "Susent"]
  {
    SplitJoin(["Solam", "", "Susent"], ' ');
    assert Join(["Solam", "", "Susent"], ' ') == "Solam  Susent";
  }

  /** A "family, given" name splits at the space: the token after it is the given name. */
  lemma SplitCommaName()
    ensures Split("Smith, John", ' ') == ["Smith,", "John"]
  {
    SplitJoin(["Smith,", "John"], ' ');
    assert Join(["Smith,", "John"], ' ') == "Smith, John";
  }

  /** `"0001_01"` has group id 1. */
  lemma GroupIdExample()
    ensures GroupIdOf("0001_01") == Ok(1)
  {
    assert FormatNat(1) == "1";
    assert "000" + "1" + "_" + "01" == "0001_01";
    GroupIdOfPassengerId("000", 1, "01");
  }

  /** 4300 zeros before the `1` of `0001_01` make `int()` raise instead of giving 1. */
  lemma GroupIdDigitLimitExample()
    ensures GroupIdOf(seq(MAX_STR_DIGITS, _ => '0') + "1_01").Err?
  {
    var zeros := seq(MAX_STR_DIGITS, _ => '0');
    assert FormatNat(1) == "1";
    assert zeros + "1_01" == zeros + FormatNat(1) + "_" + "01";
    GroupIdOfTooLong(zeros, 1, "01");
  }

  /** An id with nothing before the `_` makes line 46, and so `transform`, raise. */
  lemma EmptyGroupFails(t: Table, i: nat, member: string)
    requires t.Valid() && i < |t.index| && t.index[i] == "_" + member
    ensures AssignGroupIds(t).1.Fail? && Transformed(t).1.Fail?
  {
    GroupIdOfEmptyGroup(member);
    GroupIdsEffect(t);
    TransformSucceedsIff(t);
  }

  /** Narrowing is silent: 3000000000 becomes -1294967296. */
  lemma WrapInt32Example()
    ensures WrapInt32(3_000_000_000) == -1_294_967_296
  {
  }

  /**
   * A group between 2^31 and 2^32 is stored as that value less 2^32, a
   * negative id, rather than raising.
   */
  lemma GroupIdWraps(zeros: string, group: nat, member: string)
    requires forall i :: 0 <= i < |zeros| ==> zeros[i] == '0'
    requires |zeros| + |FormatNat(group)| <= MAX_STR_DIGITS
    requires INT32_MAX < group < 0x1_0000_0000
    ensures GroupIdOf(zeros + FormatNat(group) + "_" + member) == Ok(group - 0x1_0000_0000)
  {
    GroupIdOfPassengerId(zeros, group, member);
    WrapInt32Above(group);
  }

  /**
   * A passenger id whose group holds a character `int()` rejects makes line
   * 46 raise, and with it `transform`.
   */
  lemma NonNumericGroupFails(t: Table, i: nat, j: nat)
    requires t.Valid() && i < |t.index|
    requires var prefix := Split(t.index[i], '_')[0];
      j < |prefix| && !IsDigit(prefix[j]) && !IsSpace(prefix[j]) && prefix[j] != '+' && prefix[j] != '-'
    ensures AssignGroupIds(t).1.Fail? && Transformed(t).1.Fail?
  {
    GroupIdOfNonNumeric(t.index[i], j);
    GroupIdsEffect(t);
    TransformSucceedsIff(t);
  }

  /** Values from 2^31 up to 2^32 wrap to the negative value 2^32 below them. */
  lemma WrapInt32Above(v: int)
    requires INT32_MAX < v < 0x1_0000_0000
    ensures WrapInt32(v) == v - 0x1_0000_0000
  {
    var x := v + 0x8000_0000;
    var q, r := x / 0x1_0000_0000, x % 0x1_0000_0000;
    assert x == q * 0x1_0000_0000 + r && 0 <= r < 0x1_0000_0000;
    assert q == 1;
  }

  /** An example row: passenger `0001_01` in cabin `B/0/P` named `Maham Ofracculy`. */
  ghost predicate ExampleRow(t: Table)
  {
    && t.Valid()
    && t.index == ["0001_01"]
    && CABIN in t.data && t.data[CABIN] == [Text("B/0/P")]
    && NAME in t.data && t.data[NAME] == [Text("Maham Ofracculy")]
  }

  /** The transform of the example row returns rather than raises. */
  lemma ExampleRowSucceeds(t: Table)
    requires ExampleRow(t)
    ensures Transformed(t).1 == Pass
  {
    assert |t.index| == 1;
    var cabin, name := t.data[CABIN][0], t.data[NAME][0];
    assert cabin.Text? && |Split(cabin.text, '/')| == 3 by { SplitCabinExample(); }
    assert name.Text? && |Split(name.text, ' ')| >= 2 by { SplitNameExample(); }
    assert GroupIdOf(t.index[0]).Ok? by { GroupIdExample(); }
    assert forall i :: 0 <= i < |t.index| && t.data[CABIN][i].Text? ==> |Split(t.data[CABIN][i].text, '/')| <= 3;
    assert forall i :: 0 <= i < |t.index| ==> GroupIdOf(t.index[i]).Ok?;
    TransformSucceedsIff(t);
  }

  /** The example row's cabin parts: deck `B`, number `"0"` (text, not a number) and side `P`. */
  lemma ExampleRowCabin(t: Table)
    requires ExampleRow(t)
    ensures Transformed(t).1 == Pass
    ensures var r := Transformed(t).0;
      && CABIN_DECK in r.data && CABIN_NUM in r.data && CABIN_SIDE in r.data
      && r.data[CABIN_DECK][0] == Text("B")
      && r.data[CABIN_NUM][0] == Text("0")
      && r.data[CABIN_SIDE][0] == Text("P")
  {
    ExampleRowSucceeds(t);
    var cabin := t.data[CABIN][0];
    assert Split(cabin.text, '/') == ["B", "0", "P"] by { SplitCabinExample(); }
    TransformedCells(t, 0);
  }

  /** The example row's group id is 1 and its family name `Ofracculy`. */
  lemma ExampleRowGroupAndName(t: Table)
    requires ExampleRow(t)
    ensures Transformed(t).1 == Pass
    ensures var r := Transformed(t).0;
      && GROUP_ID in r.data && FAMILY_NAME in r.data
      && r.data[GROUP_ID][0] == Int(1)
      && r.data[FAMILY_NAME][0] == Text("Ofracculy")
  {
    ExampleRowSucceeds(t);
    var name := t.data[NAME][0];
    assert Split(name.text, ' ') == ["Maham", "Ofracculy"] by { SplitNameExample(); }
    assert GroupIdOf(t.index[0]) == Ok(1) by { GroupIdExample(); }
    TransformedCells(t, 0);
  }

  /**
   * The example row in full: passenger `0001_01` in cabin
   * `B/0/P` named `Maham Ofracculy` gets deck `B`, number `"0"` (text, not a
   * number), side `P`, group 1 and family name `Ofracculy`.
   */
  lemma TransformExampleRow(t: Table)
    requires ExampleRow(t)
    ensures Transformed(t).1 == Pass
    ensures var r := Transformed(t).0;
      && r.index == t.index
      && CABIN_DECK in r.data && CABIN_NUM in r.data && CABIN_SIDE in r.data
      && GROUP_ID in r.data && FAMILY_NAME in r.data
      && r.data[CABIN_DECK] == [Text("B")]
      && r.data[CABIN_NUM] == [Text("0")]
      && r.data[CABIN_SIDE] == [Text("P")]
      && r.data[GROUP_ID] == [Int(1)]
      && r.data[FAMILY_NAME] == [Text("Ofracculy")]
  {
    ExampleRowCabin(t);
    ExampleRowGroupAndName(t);
    var r := Transformed(t).0;
    assert r.Valid() && r.index == t.index by { TransformKeepsRows(t); }
    assert CABIN_DECK in r.columns && CABIN_NUM in r.columns && CABIN_SIDE in r.columns;
    assert GROUP_ID in r.columns && FAMILY_NAME in r.columns;
    Singleton(r.data[CABIN_DECK], Text("B"));
    Singleton(r.data[CABIN_NUM], Text("0"));
    Singleton(r.data[CABIN_SIDE], Text("P"));
    Singleton(r.data[GROUP_ID], Int(1));
    Singleton(r.data[FAMILY_NAME], Text("Ofracculy"));
  }

  lemma Singleton<T>(s: seq<T>, x: T)
    requires |s| == 1 && s[0] == x
    ensures s == [x]
  {
  }
}
