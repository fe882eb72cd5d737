/**
 * The cleaning step of the customer ETL job (`transform`): a fixed chain of
 * whole-table steps over the raw customer table, producing the clean table.
 * A table is the sequence of its rows in index order; the function never
 * changes its argument, it builds a new table.
 */
module Pipeline {

  import opened Wrappers
  import Frame

  /** The states a clean row may carry. */
  const ALLOWED_STATES: set<string> := {"SP", "RJ", "MG", "PR"}

  /** A parsed `signup_date`: a naive `datetime64[ns]` value. */
  datatype Timestamp = Timestamp(nanos: int)

  /**
   * A row as read from the CSV source. `customerId` is the numeric cell of an
   * integer or float column (`None` for NaN); the other cells are text, `None`
   * when empty.
   */
  datatype RawRow = RawRow(
    customerId: Option<real>,
    name: Option<string>,
    signupDate: Option<string>,
    state: Option<string>,
    spending: Option<string>)

  /**
   * The lenient parsers the cleaning step applies column by column
   * (`to_datetime` and `to_numeric` with `errors="coerce"`): text they cannot
   * read gives `None`.
   */
  datatype Parsers = Parsers(date: string -> Option<Timestamp>, number: string -> Option<real>)

  /** A row after normalisation (state upper-cased, date and amount parsed), before any filter. */
  datatype TypedRow = TypedRow(
    customerId: Option<real>,
    name: Option<string>,
    signupDate: Option<Timestamp>,
    state: string,
    spending: Option<real>)

  /** A row of the clean table. */
  datatype CleanRow = CleanRow(
    customerId: int,
    name: string,
    signupDate: Timestamp,
    state: string,
    spending: real)

  function CustomerId(c: CleanRow): int { c.customerId }

  function RawId(t: TypedRow): Option<real> { t.customerId }

  // ---------------------------------------------------------------------------
  // Cell conversions

  /** `astype("int64")` of a float: truncation toward zero. */
  function Trunc(x: real): (n: int)
    ensures 0.0 <= x ==> 0 <= n && n as real <= x < n as real + 1.0
    ensures x < 0.0 ==> n <= 0 && n as real - 1.0 < x <= n as real
  {
    if x >= 0.0 then x.Floor else -((-x).Floor)
  }

  predicate Integral(x: real) { x == x.Floor as real }

  /** On a whole number truncation is exact, so it tells whole numbers apart. */
  lemma TruncIntegral(x: real)
    requires Integral(x)
    ensures Trunc(x) as real == x
  {
    if x < 0.0 {
      var n := x.Floor;
      assert -x == (-n) as real;
      assert (-x).Floor == -n;
    }
  }

  /** `astype(str)` of a state cell: a missing cell becomes the text "nan". */
  function StateText(cell: Option<string>): string {
    if cell.Some? then cell.value else "nan"
  }

  predicate IsLower(ch: char) { 'a' <= ch <= 'z' }

  function UpperChar(ch: char): char {
    if IsLower(ch) then (ch as int - 32) as char else ch
  }

  /** `str.upper`, on the ASCII letters: no lower-case letter is left, nothing else changes. */
  function Upper(s: string): (u: string)
    ensures |u| == |s|
    ensures forall i :: 0 <= i < |s| ==> !IsLower(u[i])
    ensures forall i :: 0 <= i < |s| && !IsLower(s[i]) ==> u[i] == s[i]
    ensures forall i :: 0 <= i < |s| && IsLower(s[i]) ==> u[i] as int == s[i] as int - 32
  {
    seq(|s|, i requires 0 <= i < |s| => UpperChar(s[i]))
  }

  /** Text with no lower-case letter is left as it is. */
  lemma UpperKeepsUpper(s: string)
    requires forall i :: 0 <= i < |s| ==> !IsLower(s[i])
    ensures Upper(s) == s
  {
  }

  /** Upper-casing twice is upper-casing once. */
  lemma UpperIdempotent(s: string)
    ensures Upper(Upper(s)) == Upper(s)
  {
    UpperKeepsUpper(Upper(s));
  }

  /** A missing state reads "NAN" once normalised, which is not an allowed state. */
  lemma MissingStateNotAllowed()
    ensures Upper(StateText(None)) !in ALLOWED_STATES
  {
    assert |Upper(StateText(None))| == 3;
  }

  // ---------------------------------------------------------------------------
  // Row-level steps

  /** Normalisation: upper-case the state text, parse the date and the amount. */
  function Coerce(r: RawRow, p: Parsers): TypedRow {
    TypedRow(
      r.customerId,
      r.name,
      if r.signupDate.Some? then p.date(r.signupDate.value) else None,
      Upper(StateText(r.state)),
      if r.spending.Some? then p.number(r.spending.value) else None)
  }

  /** The state filter: the state is one of the allowed ones. */
  predicate InAllowedState(t: TypedRow) { t.state in ALLOWED_STATES }

  /** The `dropna` filter: none of the four required cells is missing. */
  predicate Complete(t: TypedRow) {
    t.customerId.Some? && t.name.Some? && t.signupDate.Some? && t.spending.Some?
  }

  /** The business rule `spending >= 0`; a missing amount compares false, as NaN does. */
  predicate NonNegative(t: TypedRow) { t.spending.Some? && t.spending.value >= 0.0 }

  /** The final `astype` of a complete row: the id truncated to an integer. */
  function Typed(t: TypedRow): CleanRow
    requires Complete(t)
  {
    CleanRow(Trunc(t.customerId.value), t.name.value, t.signupDate.value, t.state, t.spending.value)
  }

  // ---------------------------------------------------------------------------
  // Whole-table steps

  function NormalizeTypes(rows: seq<RawRow>, p: Parsers): (t: seq<TypedRow>)
    ensures |t| == |rows|
    ensures forall i :: 0 <= i < |rows| ==> t[i] == Coerce(rows[i], p)
  {
    if rows == [] then [] else [Coerce(rows[0], p)] + NormalizeTypes(rows[1..], p)
  }

  function TypeRows(s: seq<TypedRow>): (c: seq<CleanRow>)
    requires forall i :: 0 <= i < |s| ==> Complete(s[i])
    ensures |c| == |s|
    ensures forall i :: 0 <= i < |s| ==> c[i] == Typed(s[i])
  {
    if s == [] then [] else [Typed(s[0])] + TypeRows(s[1..])
  }

  /** The rows that pass the state, completeness and non-negative filters, in their original order. */
  function Filtered(rows: seq<RawRow>, p: Parsers): (t: seq<TypedRow>)
    ensures forall i :: 0 <= i < |t| ==> InAllowedState(t[i]) && Complete(t[i]) && NonNegative(t[i])
  {
    var normalized := NormalizeTypes(rows, p);
    var allowed := Frame.Select(normalized, InAllowedState);
    var complete := Frame.Select(allowed, Complete);
    Frame.SelectSound(normalized, InAllowedState);
    Frame.SelectSound(allowed, Complete);
    Frame.SelectSound(complete, NonNegative);
    Frame.Select(complete, NonNegative)
  }

  /** The filtered rows, typed, before deduplication. */
  function CleanTable(rows: seq<RawRow>, p: Parsers): seq<CleanRow> {
    TypeRows(Filtered(rows, p))
  }

  /**
   * `transform`: normalise, filter, then keep for each customer id only its
   * last row. The id a row is deduplicated on is the integer id it carries in
   * the output; `TransformAsWritten` follows the order `pipeline.py` uses,
   * deduplication before the integer cast.
   */
  function Transform(rows: seq<RawRow>, p: Parsers): (out: seq<CleanRow>)
    ensures |out| <= |rows|
    ensures forall k :: 0 <= k < |out| ==> out[k].state in ALLOWED_STATES && out[k].spending >= 0.0
    ensures Frame.DistinctKeys(out, CustomerId)
  {
    Frame.DedupLast(CleanTable(rows, p), CustomerId)
  }

  /**
   * `transform` in the order the source writes it: deduplicate on the raw
   * numeric id, then truncate it to an integer in the final `astype`.
   */
  function TransformAsWritten(rows: seq<RawRow>, p: Parsers): (out: seq<CleanRow>)
    ensures |out| <= |rows|
    ensures forall k :: 0 <= k < |out| ==> out[k].state in ALLOWED_STATES && out[k].spending >= 0.0
  {
    TypeRows(Frame.DedupLast(Filtered(rows, p), RawId))
  }

  // ---------------------------------------------------------------------------
  // The same rules stated row by row

  /** A raw row passes the state, completeness and non-negative filters. */
  predicate Valid(r: RawRow, p: Parsers) {
    var t := Coerce(r, p);
    InAllowedState(t) && Complete(t) && NonNegative(t)
  }

  /** The integer id a row ends up with, if it has one. */
  function IdOf(r: RawRow): Option<int> {
    if r.customerId.Some? then Some(Trunc(r.customerId.value)) else None
  }

  /** The clean row a valid raw row becomes, field by field. */
  function Clean(r: RawRow, p: Parsers): (c: CleanRow)
    requires Valid(r, p)
    ensures IdOf(r) == Some(c.customerId)
    ensures r.name == Some(c.name)
    ensures r.signupDate.Some? && p.date(r.signupDate.value) == Some(c.signupDate)
    ensures r.state.Some? && c.state == Upper(r.state.value) && c.state in ALLOWED_STATES
    ensures r.spending.Some? && p.number(r.spending.value) == Some(c.spending) && c.spending >= 0.0
  {
    MissingStateNotAllowed();
    Typed(Coerce(r, p))
  }

  /**
   * Which rows pass the filters, in terms of the raw cells: an unparseable
   * date or amount, like a missing cell, drops the row, and so does a missing
   * state.
   */
  lemma ValidIff(r: RawRow, p: Parsers)
    ensures Valid(r, p) <==>
      && r.customerId.Some?
      && r.name.Some?
      && r.signupDate.Some? && p.date(r.signupDate.value).Some?
      && r.spending.Some? && p.number(r.spending.value).Some? && p.number(r.spending.value).value >= 0.0
      && r.state.Some? && Upper(r.state.value) in ALLOWED_STATES
  {
    MissingStateNotAllowed();
  }

  /** Row `i` is valid and no later valid row carries the same integer id. */
  predicate Survives(rows: seq<RawRow>, p: Parsers, i: int) {
    && 0 <= i < |rows|
    && Valid(rows[i], p)
    && forall j :: i < j < |rows| && Valid(rows[j], p) ==> IdOf(rows[j]) != IdOf(rows[i])
  }

  /** The positions at or after `lo` whose rows survive, in increasing order. */
  function SurvivorsFrom(rows: seq<RawRow>, p: Parsers, lo: nat): (idx: seq<nat>)
    requires lo <= |rows|
    ensures |idx| <= |rows| - lo
    ensures forall k :: 0 <= k < |idx| ==> lo <= idx[k] && Survives(rows, p, idx[k])
    ensures forall k, l :: 0 <= k < l < |idx| ==> idx[k] < idx[l]
    decreases |rows| - lo
  {
    if lo == |rows| then []
    else (if Survives(rows, p, lo) then [lo] else []) + SurvivorsFrom(rows, p, lo + 1)
  }

  /** No surviving position at or after `lo` is missed. */
  lemma {:induction false} SurvivorsFromComplete(rows: seq<RawRow>, p: Parsers, lo: nat)
    requires lo <= |rows|
    ensures forall i :: lo <= i < |rows| && Survives(rows, p, i) ==> i in SurvivorsFrom(rows, p, lo)
    decreases |rows| - lo
  {
    if lo < |rows| {
      SurvivorsFromComplete(rows, p, lo + 1);
    }
  }

  function Survivors(rows: seq<RawRow>, p: Parsers): seq<nat> {
    SurvivorsFrom(rows, p, 0)
  }

  // ---------------------------------------------------------------------------
  // The whole-table chain agrees with the row-by-row rules

  lemma FilteredCons(rows: seq<RawRow>, p: Parsers)
    requires |rows| > 0
    ensures Filtered(rows, p) ==
      (if Valid(rows[0], p) then [Coerce(rows[0], p)] else []) + Filtered(rows[1..], p)
  {
    var t := Coerce(rows[0], p);
    var n1 := NormalizeTypes(rows[1..], p);
    var a1 := Frame.Select(n1, InAllowedState);
    var c1 := Frame.Select(a1, Complete);
    var f1 := Frame.Select(c1, NonNegative);
    var a := Frame.Select(NormalizeTypes(rows, p), InAllowedState);
    var c := Frame.Select(a, Complete);
    assert NormalizeTypes(rows, p) == [t] + n1;
    Frame.SelectCons(t, n1, InAllowedState);
    if InAllowedState(t) {
      assert a == [t] + a1;
      Frame.SelectCons(t, a1, Complete);
      if Complete(t) {
        assert c == [t] + c1;
        Frame.SelectCons(t, c1, NonNegative);
      } else {
        assert c == c1;
      }
    } else {
      assert a == a1;
      assert c == c1;
    }
  }

  lemma TypeRowsCons(x: TypedRow, t: seq<TypedRow>)
    requires Complete(x) && forall i :: 0 <= i < |t| ==> Complete(t[i])
    ensures TypeRows([x] + t) == [Typed(x)] + TypeRows(t)
  {
    assert ([x] + t)[1..] == t;
  }

  lemma CleanTableCons(rows: seq<RawRow>, p: Parsers)
    requires |rows| > 0
    ensures CleanTable(rows, p) ==
      (if Valid(rows[0], p) then [Clean(rows[0], p)] else []) + CleanTable(rows[1..], p)
  {
    FilteredCons(rows, p);
    if Valid(rows[0], p) {
      TypeRowsCons(Coerce(rows[0], p), Filtered(rows[1..], p));
    }
  }

  /** Some valid row of the table carries the integer id `x`. */
  predicate HasValidId(rows: seq<RawRow>, p: Parsers, x: int) {
    exists j :: 0 <= j < |rows| && Valid(rows[j], p) && IdOf(rows[j]) == Some(x)
  }

  lemma HasValidIdCons(rows: seq<RawRow>, p: Parsers, x: int)
    requires |rows| > 0
    ensures HasValidId(rows, p, x) <==>
      (Valid(rows[0], p) && IdOf(rows[0]) == Some(x)) || HasValidId(rows[1..], p, x)
  {
    var rest := rows[1..];
    if HasValidId(rest, p, x) {
      var j :| 0 <= j < |rest| && Valid(rest[j], p) && IdOf(rest[j]) == Some(x);
      assert rest[j] == rows[j + 1];
    }
    if HasValidId(rows, p, x) {
      var j :| 0 <= j < |rows| && Valid(rows[j], p) && IdOf(rows[j]) == Some(x);
      if j > 0 {
        assert rest[j - 1] == rows[j];
      }
    }
  }

  /** The ids present in the filtered table are exactly the ids of the valid rows. */
  lemma {:induction false} IdsOfCleanTable(rows: seq<RawRow>, p: Parsers, x: int)
    ensures x in Frame.KeySet(CleanTable(rows, p), CustomerId) <==> HasValidId(rows, p, x)
  {
    if rows != [] {
      var rest := rows[1..];
      IdsOfCleanTable(rest, p, x);
      HasValidIdCons(rows, p, x);
      CleanTableCons(rows, p);
      var tail := CleanTable(rest, p);
      if Valid(rows[0], p) {
        var c := Clean(rows[0], p);
        assert CleanTable(rows, p) == [c] + tail;
        Frame.KeySetCons(c, tail, CustomerId);
      } else {
        assert CleanTable(rows, p) == tail;
      }
    }
  }

  lemma SurvivesIff(rows: seq<RawRow>, p: Parsers, i: int)
    requires 0 <= i < |rows|
    ensures Survives(rows, p, i) <==>
      Valid(rows[i], p) && !HasValidId(rows[i + 1..], p, Clean(rows[i], p).customerId)
  {
    var rest := rows[i + 1..];
    if Valid(rows[i], p) {
      var x := Clean(rows[i], p).customerId;
      if HasValidId(rest, p, x) {
        var j :| 0 <= j < |rest| && Valid(rest[j], p) && IdOf(rest[j]) == Some(x);
        assert rest[j] == rows[i + 1 + j];
      } else {
        forall j | i < j < |rows| && Valid(rows[j], p) ensures IdOf(rows[j]) != IdOf(rows[i]) {
          assert rest[j - i - 1] == rows[j];
        }
      }
    }
  }

  /** Deduplicating one more row at the front: it stays exactly when it survives. */
  lemma TransformCons(rows: seq<RawRow>, p: Parsers)
    requires rows != []
    ensures Transform(rows, p) == (if Survives(rows, p, 0) then [Clean(rows[0], p)] else []) + Transform(rows[1..], p)
  {
    var rest := rows[1..];
    CleanTableCons(rows, p);
    SurvivesIff(rows, p, 0);
    var tail := CleanTable(rest, p);
    if Valid(rows[0], p) {
      var c := Clean(rows[0], p);
      assert CleanTable(rows, p) == [c] + tail;
      Frame.DedupLastCons(c, tail, CustomerId);
      IdsOfCleanTable(rest, p, c.customerId);
    } else {
      assert CleanTable(rows, p) == tail;
    }
  }

  lemma {:induction false} TransformSuffix(rows: seq<RawRow>, p: Parsers, lo: nat)
    requires lo <= |rows|
    ensures var out := Transform(rows[lo..], p);
      var idx := SurvivorsFrom(rows, p, lo);
      |out| == |idx| && forall k :: 0 <= k < |idx| ==> out[k] == Clean(rows[idx[k]], p)
    decreases |rows| - lo
  {
    if lo < |rows| {
      TransformSuffix(rows, p, lo + 1);
      var suffix := rows[lo..];
      assert suffix[1..] == rows[lo + 1..];
      assert suffix[0] == rows[lo];
      TransformCons(suffix, p);
      SurvivesIff(suffix, p, 0);
      SurvivesIff(rows, p, lo);
    }
  }

  // ---------------------------------------------------------------------------
  // What transform promises

  /**
   * The clean table is the survivors, in their original order: row `k` of the
   * output is the clean form of the `k`-th input row that is valid and has no
   * later valid row with the same id. So the output is a subsequence of the
   * input, at most as long, with each id's last valid occurrence.
   */
  lemma TransformSelectsSurvivors(rows: seq<RawRow>, p: Parsers)
    ensures var out := Transform(rows, p);
      var idx := Survivors(rows, p);
      && |out| == |idx| <= |rows|
      && (forall k :: 0 <= k < |idx| ==> Survives(rows, p, idx[k]) && out[k] == Clean(rows[idx[k]], p))
      && (forall k, l :: 0 <= k < l < |idx| ==> idx[k] < idx[l])
      && (forall i :: 0 <= i < |rows| && Survives(rows, p, i) ==> i in idx)
  {
    TransformSuffix(rows, p, 0);
    SurvivorsFromComplete(rows, p, 0);
    assert rows[0..] == rows;
  }

  /**
   * Each clean row carries the upper-cased state of the input row it comes
   * from (the `k`-th survivor), and that state is an allowed one.
   */
  lemma TransformStatesNormalised(rows: seq<RawRow>, p: Parsers)
    ensures var out, idx := Transform(rows, p), Survivors(rows, p);
      forall k :: 0 <= k < |out| && k < |idx| ==>
        && out[k].state in ALLOWED_STATES
        && rows[idx[k]].state.Some?
        && out[k].state == Upper(rows[idx[k]].state.value)
  {
    TransformSelectsSurvivors(rows, p);
  }

  /** Every valid row's id is in the output, carried by the last valid row with that id. */
  lemma {:induction false} LastValidRowWins(rows: seq<RawRow>, p: Parsers, i: int)
    requires 0 <= i < |rows| && Valid(rows[i], p)
    ensures exists j :: i <= j < |rows| && Survives(rows, p, j) && IdOf(rows[j]) == IdOf(rows[i]) &&
                        Clean(rows[j], p) in Transform(rows, p)
    decreases |rows| - i
  {
    if Survives(rows, p, i) {
      TransformSelectsSurvivors(rows, p);
      var idx := Survivors(rows, p);
      var k :| 0 <= k < |idx| && idx[k] == i;
      assert Transform(rows, p)[k] == Clean(rows[i], p);
    } else {
      var j :| i < j < |rows| && Valid(rows[j], p) && IdOf(rows[j]) == IdOf(rows[i]);
      LastValidRowWins(rows, p, j);
    }
  }

  /**
   * Deduplication runs after the filters: a valid row survives when every
   * later row with its id is invalid, however many such rows there are.
   */
  lemma EarlierValidRowSurvivesInvalidDuplicates(rows: seq<RawRow>, p: Parsers, i: int)
    requires 0 <= i < |rows| && Valid(rows[i], p)
    requires forall j :: i < j < |rows| && IdOf(rows[j]) == IdOf(rows[i]) ==> !Valid(rows[j], p)
    ensures Clean(rows[i], p) in Transform(rows, p)
  {
    LastValidRowWins(rows, p, i);
  }

  /** The valid rows' ids; the clean table has one row per id. */
  function ValidIds(rows: seq<RawRow>, p: Parsers): set<int> {
    set i | 0 <= i < |rows| && Valid(rows[i], p) :: Clean(rows[i], p).customerId
  }

  lemma TransformSize(rows: seq<RawRow>, p: Parsers)
    ensures |Transform(rows, p)| == |ValidIds(rows, p)|
  {
    var out := Transform(rows, p);
    Frame.DistinctKeysCard(out, CustomerId);
    var ids := Frame.KeySet(CleanTable(rows, p), CustomerId);
    forall x ensures x in ids <==> x in ValidIds(rows, p) {
      IdsOfCleanTable(rows, p, x);
    }
    assert ids == ValidIds(rows, p);
  }

  // ---------------------------------------------------------------------------
  // Deduplicating before or after the integer typing

  /** Two customers whose ids differ only after the decimal point, 3.0 and 3.5. */
  const COLLIDING_ROWS: seq<RawRow> := [
    RawRow(Some(3.0), Some("Ana"), Some("2024-01-05"), Some("SP"), Some("10")),
    RawRow(Some(3.5), Some("Bia"), Some("2024-01-05"), Some("SP"), Some("10"))]

  /** Parsers that accept the date and the amount used in `COLLIDING_ROWS`. */
  predicate AcceptsCollidingRows(p: Parsers) {
    p.date("2024-01-05").Some? && p.number("10").Some? && p.number("10").value >= 0.0
  }

  lemma CollidingRowsPassFilters(p: Parsers)
    requires AcceptsCollidingRows(p)
    ensures Valid(COLLIDING_ROWS[0], p) && Valid(COLLIDING_ROWS[1], p)
    ensures Filtered(COLLIDING_ROWS, p) == [Coerce(COLLIDING_ROWS[0], p), Coerce(COLLIDING_ROWS[1], p)]
    ensures CleanTable(COLLIDING_ROWS, p) == [Clean(COLLIDING_ROWS[0], p), Clean(COLLIDING_ROWS[1], p)]
  {
    var rows := COLLIDING_ROWS;
    var r1 := rows[1];
    UpperKeepsUpper("SP");
    assert Valid(rows[0], p) && Valid(r1, p);
    assert rows[1..] == [r1];
    assert [r1][1..] == [];
    FilteredCons(rows, p);
    FilteredCons([r1], p);
    CleanTableCons(rows, p);
    CleanTableCons([r1], p);
  }

  /**
   * With the source's order of steps, ids 3.0 and 3.5 both survive
   * deduplication and are then truncated to the same integer: the clean table
   * carries customer 3 twice.
   */
  lemma AsWrittenKeepsCollidingIds(p: Parsers)
    requires AcceptsCollidingRows(p)
    ensures var out := TransformAsWritten(COLLIDING_ROWS, p);
      |out| == 2 && out[0].customerId == 3 && out[1].customerId == 3
  {
    CollidingRowsPassFilters(p);
    var t0, t1 := Coerce(COLLIDING_ROWS[0], p), Coerce(COLLIDING_ROWS[1], p);
    Frame.DedupLastCons(t0, [t1], RawId);
    Frame.DedupLastCons(t1, [], RawId);
    assert Frame.DedupLast([t0, t1], RawId) == [t0, t1];
  }

  /** Deduplicating on the integer id keeps only the later of the two rows. */
  lemma CorrectedKeepsLastOfCollidingIds(p: Parsers)
    requires AcceptsCollidingRows(p)
    ensures var out := Transform(COLLIDING_ROWS, p);
      |out| == 1 && out[0].customerId == 3 && out[0].name == "Bia"
  {
    CollidingRowsPassFilters(p);
    var c0, c1 := Clean(COLLIDING_ROWS[0], p), Clean(COLLIDING_ROWS[1], p);
    Frame.DedupLastCons(c0, [c1], CustomerId);
    Frame.DedupLastCons(c1, [], CustomerId);
  }

  lemma KeysCorrespond(x: TypedRow, t: seq<TypedRow>)
    requires Complete(x) && Integral(x.customerId.value)
    requires forall i :: 0 <= i < |t| ==> Complete(t[i]) && Integral(t[i].customerId.value)
    ensures RawId(x) in Frame.KeySet(t, RawId) <==> CustomerId(Typed(x)) in Frame.KeySet(TypeRows(t), CustomerId)
  {
    var typed := TypeRows(t);
    if RawId(x) in Frame.KeySet(t, RawId) {
      Frame.KeySetWitness(t, RawId, RawId(x));
      var i :| 0 <= i < |t| && RawId(t[i]) == RawId(x);
      assert CustomerId(typed[i]) == CustomerId(Typed(x));
    }
    if CustomerId(Typed(x)) in Frame.KeySet(typed, CustomerId) {
      Frame.KeySetWitness(typed, CustomerId, CustomerId(Typed(x)));
      var i :| 0 <= i < |typed| && CustomerId(typed[i]) == CustomerId(Typed(x));
      TruncIntegral(x.customerId.value);
      TruncIntegral(t[i].customerId.value);
      assert RawId(t[i]) == RawId(x);
    }
  }

  /** When every id is a whole number, truncation is injective and the order of the two steps does not matter. */
  lemma {:induction false} DedupCommutesWithTyping(s: seq<TypedRow>)
    requires forall i :: 0 <= i < |s| ==> Complete(s[i]) && Integral(s[i].customerId.value)
    ensures TypeRows(Frame.DedupLast(s, RawId)) == Frame.DedupLast(TypeRows(s), CustomerId)
  {
    if s != [] {
      var x, t := s[0], s[1..];
      assert s == [x] + t;
      assert forall i :: 0 <= i < |t| ==> t[i] == s[i + 1];
      DedupCommutesWithTyping(t);
      Frame.DedupLastCons(x, t, RawId);
      TypeRowsCons(x, t);
      Frame.DedupLastCons(Typed(x), TypeRows(t), CustomerId);
      KeysCorrespond(x, t);
      if RawId(x) !in Frame.KeySet(t, RawId) {
        var d := Frame.DedupLast(t, RawId);
        assert forall i :: 0 <= i < |d| ==> Complete(d[i]);
        TypeRowsCons(x, d);
      }
    }
  }

  /** The rows that reach deduplication carry the ids of input rows. */
  lemma FilteredIdsFromInput(rows: seq<RawRow>, p: Parsers, i: int)
    requires 0 <= i < |Filtered(rows, p)|
    ensures exists j :: 0 <= j < |rows| && Filtered(rows, p)[i].customerId == rows[j].customerId
  {
    var n := NormalizeTypes(rows, p);
    var a := Frame.Select(n, InAllowedState);
    var c := Frame.Select(a, Complete);
    var f := Filtered(rows, p);
    Frame.SelectSound(n, InAllowedState);
    Frame.SelectSound(a, Complete);
    Frame.SelectSound(c, NonNegative);
    assert f[i] in c;
    var k :| 0 <= k < |c| && c[k] == f[i];
    assert c[k] in a;
    var l :| 0 <= l < |a| && a[l] == c[k];
    assert a[l] in n;
    var m :| 0 <= m < |n| && n[m] == a[l];
    assert f[i].customerId == rows[m].customerId;
  }

  /**
   * On whole-number ids the source's order of steps and the corrected one give
   * the same clean table.
   */
  lemma AsWrittenAgreesOnWholeIds(rows: seq<RawRow>, p: Parsers)
    requires forall i :: 0 <= i < |rows| && rows[i].customerId.Some? ==> Integral(rows[i].customerId.value)
    ensures TransformAsWritten(rows, p) == Transform(rows, p)
  {
    var f := Filtered(rows, p);
    forall i | 0 <= i < |f| ensures Integral(f[i].customerId.value) {
      FilteredIdsFromInput(rows, p, i);
    }
    DedupCommutesWithTyping(f);
  }

}
