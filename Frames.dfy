/**
 * The data frame the pipeline works on: a row index of passenger ids and
 * named columns of cells, stored column by column as pandas does.
 */
module Frames {
  import opened Wrappers
  import opened Exceptions

  /** One cell of a column. */
  datatype Cell =
    /** a missing value (`NaN` / `None`) */
    | Missing
    | Text(text: string)
    | Int(value: int)
    /** a value of another dtype (float, bool) that the transform only carries along */
    | Other(repr: string)

  /** No label appears twice. */
  ghost predicate Distinct(labels: seq<string>) {
    forall i, j :: 0 <= i < j < |labels| ==> labels[i] != labels[j]
  }

  /** The labels after the first of a list without repeats have none either and do not repeat the first. */
  lemma DistinctTail(labels: seq<string>)
    requires labels != [] && Distinct(labels)
    ensures Distinct(labels[1..]) && labels[0] !in labels[1..]
  {
    var tail := labels[1..];
    forall i, j | 0 <= i < j < |tail| ensures tail[i] != tail[j] {
      assert tail[i] == labels[i + 1] && tail[j] == labels[j + 1];
    }
    forall k | 0 <= k < |tail| ensures tail[k] != labels[0] {
      assert tail[k] == labels[k + 1];
    }
  }

  /** The value of a frame: row labels, column labels in order, and the cells of each column. */
  datatype Table = Table(index: seq<string>, columns: seq<string>, data: map<string, seq<Cell>>) {

    /**
     * Column labels are distinct (the CSV reader renames duplicates), every
     * label has a column and every column has one cell per row.
     */
    ghost predicate Valid() {
      && Distinct(columns)
      && (forall c :: c in data <==> c in columns)
      && (forall c :: c in data ==> |data[c]| == |index|)
    }

    /**
     * The frame after `df[name] = values`: an existing column keeps its
     * position and gets the new cells, a new label is appended at the end.
     */
    function With(name: string, values: seq<Cell>): (t: Table)
      requires Valid() && |values| == |index|
      ensures t.Valid()
      ensures t.index == index
      ensures name in t.data && t.data[name] == values
      ensures t.data.Keys == data.Keys + {name}
      ensures forall c :: c in data && c != name ==> c in t.data && t.data[c] == data[c]
      ensures t.columns == if name in data then columns else columns + [name]
    {
      Table(index, if name in data then columns else columns + [name], data[name := values])
    }

    /** The frame after assigning the given columns one after the other. */
    function WithAll(names: seq<string>, values: seq<seq<Cell>>): (t: Table)
      requires Valid() && |names| == |values|
      requires forall k :: 0 <= k < |values| ==> |values[k]| == |index|
      ensures t.Valid() && t.index == index
      decreases |names|
    {
      if names == [] then this
      else With(names[0], values[0]).WithAll(names[1..], values[1..])
    }
  }

  /**
   * `r` is `t` after assignments to the columns in `labels` only: the same
   * rows, every existing label kept in its position, and every other
   * column's cells untouched.
   */
  ghost predicate AssignsOnly(t: Table, r: Table, labels: set<string>) {
    && r.index == t.index
    && t.columns <= r.columns
    && (forall c :: c in r.data ==> c in t.data || c in labels)
    && (forall c :: c in t.data && c !in labels ==> c in r.data && r.data[c] == t.data[c])
  }

  /** Assignments to some labels are assignments to any larger set of labels. */
  lemma AssignsOnlyWiden(t: Table, r: Table, labels: set<string>, wider: set<string>)
    requires AssignsOnly(t, r, labels) && labels <= wider
    ensures AssignsOnly(t, r, wider)
  {
  }

  /** Two rounds of assignments to some labels are one round of assignments to them. */
  lemma AssignsOnlyChain(t: Table, t1: Table, t2: Table, labels: set<string>)
    requires AssignsOnly(t, t1, labels) && AssignsOnly(t1, t2, labels)
    ensures AssignsOnly(t, t2, labels)
  {
    assert t.columns <= t2.columns by {
      assert t1.columns[..|t.columns|] == t.columns;
      assert t2.columns[..|t1.columns|] == t1.columns;
      assert t2.columns[..|t.columns|] == t2.columns[..|t1.columns|][..|t.columns|];
    }
  }

  /** Assigning a column the cells it already holds changes nothing. */
  lemma WithSame(t: Table, name: string)
    requires t.Valid() && name in t.data
    ensures t.With(name, t.data[name]) == t
  {
    assert t.data[name := t.data[name]] == t.data;
  }

  /** Assigning several columns is assigning the first, then the rest. */
  lemma WithAllStep(t: Table, names: seq<string>, values: seq<seq<Cell>>)
    requires t.Valid() && |names| == |values| && names != []
    requires forall k :: 0 <= k < |values| ==> |values[k]| == |t.index|
    ensures var t1 := t.With(names[0], values[0]);
      && t1.Valid() && t1.index == t.index
      && (forall k :: 0 <= k < |values[1..]| ==> |values[1..][k]| == |t1.index|)
      && t.WithAll(names, values) == t1.WithAll(names[1..], values[1..])
  {
    var t1 := t.With(names[0], values[0]);
    forall k | 0 <= k < |values[1..]| ensures |values[1..][k]| == |t1.index| {
      assert values[1..][k] == values[k + 1];
    }
  }

  /**
   * Assigning several columns keeps the existing labels in order, adds only
   * the assigned labels and leaves the other columns alone.
   */
  lemma {:induction false} WithAllEffect(t: Table, names: seq<string>, values: seq<seq<Cell>>)
    requires t.Valid() && |names| == |values|
    requires forall k :: 0 <= k < |values| ==> |values[k]| == |t.index|
    ensures var r := t.WithAll(names, values);
      && t.columns <= r.columns
      && (forall c :: c in r.data ==> c in t.data || c in names)
      && (forall c :: c in t.data && c !in names ==> c in r.data && r.data[c] == t.data[c])
    decreases |names|
  {
    if names != [] {
      WithAllStep(t, names, values);
      var t1 := t.With(names[0], values[0]);
      WithAllEffect(t1, names[1..], values[1..]);
      var r := t.WithAll(names, values);
      forall c | c in r.data ensures c in t.data || c in names {
        if c !in t1.data { assert c in names[1..]; }
      }
    }
  }

  /** When the labels are distinct, each given column ends up under its label. */
  lemma {:induction false} WithAllStores(t: Table, names: seq<string>, values: seq<seq<Cell>>)
    requires t.Valid() && |names| == |values|
    requires forall k :: 0 <= k < |values| ==> |values[k]| == |t.index|
    requires Distinct(names)
    ensures var r := t.WithAll(names, values);
      forall k :: 0 <= k < |names| ==> names[k] in r.data && r.data[names[k]] == values[k]
    decreases |names|
  {
    if names != [] {
      WithAllStep(t, names, values);
      var t1 := t.With(names[0], values[0]);
      var tail := names[1..];
      DistinctTail(names);
      WithAllStores(t1, tail, values[1..]);
      WithAllEffect(t1, tail, values[1..]);
      var r := t.WithAll(names, values);
      forall k | 0 <= k < |names| ensures names[k] in r.data && r.data[names[k]] == values[k] {
        if k == 0 {
          assert names[0] !in tail;
        } else {
          assert tail[k - 1] == names[k];
        }
      }
    }
  }

  lemma AppendAssociates<T>(a: seq<T>, b: seq<T>, c: seq<T>)
    ensures (a + b) + c == a + (b + c)
  {
  }

  /** Assigning the first of several distinct new labels appends it and leaves the rest new. */
  lemma AppendsStep(t: Table, names: seq<string>, values: seq<seq<Cell>>)
    requires t.Valid() && |names| == |values| && names != []
    requires forall k :: 0 <= k < |values| ==> |values[k]| == |t.index|
    requires Distinct(names)
    requires forall c :: c in names ==> c !in t.data
    ensures var t1 := t.With(names[0], values[0]);
      && t1.columns == t.columns + [names[0]]
      && Distinct(names[1..])
      && (forall c :: c in names[1..] ==> c !in t1.data)
  {
    var t1 := t.With(names[0], values[0]);
    DistinctTail(names);
    forall c | c in names[1..] ensures c !in t1.data {
      assert c in names && c != names[0];
    }
  }

  /** Assigning distinct new labels appends them, in order, after the existing ones. */
  lemma {:induction false} WithAllAppends(t: Table, names: seq<string>, values: seq<seq<Cell>>)
    requires t.Valid() && |names| == |values|
    requires forall k :: 0 <= k < |values| ==> |values[k]| == |t.index|
    requires Distinct(names)
    requires forall c :: c in names ==> c !in t.data
    ensures t.WithAll(names, values).columns == t.columns + names
    decreases |names|
  {
    if names != [] {
      var t1 := t.With(names[0], values[0]);
      var tail := names[1..];
      WithAllStep(t, names, values);
      var r1 := t1.WithAll(tail, values[1..]);
      assert r1.columns == t1.columns + tail by {
        AppendsStep(t, names, values);
        WithAllAppends(t1, tail, values[1..]);
      }
      assert t1.columns + tail == t.columns + names by {
        AppendsStep(t, names, values);
        assert names == [names[0]] + tail;
        AppendAssociates(t.columns, [names[0]], tail);
      }
    }
  }

  /** Assigning columns the cells they already hold changes nothing. */
  lemma {:induction false} WithAllSame(t: Table, names: seq<string>, values: seq<seq<Cell>>)
    requires t.Valid() && |names| == |values|
    requires forall k :: 0 <= k < |names| ==> names[k] in t.data && t.data[names[k]] == values[k]
    ensures t.WithAll(names, values) == t
    decreases |names|
  {
    if names != [] {
      WithSame(t, names[0]);
      WithAllSame(t, names[1..], values[1..]);
    }
  }

  /** The in-place data frame (`pandas.DataFrame`). */
  class Frame {
    var index: seq<string>
    var columns: seq<string>
    var data: map<string, seq<Cell>>

    function Value(): Table
      reads this
    {
      Table(index, columns, data)
    }

    ghost predicate Valid()
      reads this
    {
      Value().Valid()
    }

    /** A frame holding the given table, as the CSV reader returns it. */
    constructor (t: Table)
      requires t.Valid()
      ensures Valid() && Value() == t
    {
      index, columns, data := t.index, t.columns, t.data;
    }

    /** `df[name] = values`. */
    method SetColumn(name: string, values: seq<Cell>)
      requires Valid() && |values| == |index|
      modifies this
      ensures Valid() && Value() == old(Value()).With(name, values)
    {
      if name !in data {
        columns := columns + [name];
      }
      data := data[name := values];
    }

    /**
     * `df[names] = expanded` for a list of labels and a frame given as its
     * columns: the widths must agree, then each label is assigned in turn.
     */
    method SetColumns(names: seq<string>, expanded: seq<seq<Cell>>) returns (outcome: Outcome<Exception>)
      requires Valid()
      requires forall k :: 0 <= k < |expanded| ==> |expanded[k]| == |index|
      modifies this
      ensures Valid()
      ensures outcome == if |names| == |expanded| then Pass else Fail(ColumnsLengthMismatch(|names|, |expanded|))
      ensures Value() == if outcome.Pass? then old(Value()).WithAll(names, expanded) else old(Value())
    {
      if |names| != |expanded| {
        return Fail(ColumnsLengthMismatch(|names|, |expanded|));
      }
      var k := 0;
      while k < |names|
        invariant 0 <= k <= |names|
        invariant Valid() && index == old(index)
        invariant old(Value()).WithAll(names, expanded) == Value().WithAll(names[k..], expanded[k..])
      {
        assert names[k..][1..] == names[k + 1..] && expanded[k..][1..] == expanded[k + 1..];
        SetColumn(names[k], expanded[k]);
        k := k + 1;
      }
      outcome := Pass;
    }
  }
}
