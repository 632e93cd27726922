/**
 * Column operations of the processed table in `pdc_task1/app.py`: a column is a
 * sequence of cells, `None` standing for a missing value (NaN or None in the frame).
 */
module Columns {
  import opened Wrappers
  import opened Text

  // ---------------------------------------------------------------------------
  // Forward fill (`Series.ffill()`)
  // ---------------------------------------------------------------------------

  /** The last present cell of `cells`, `None` when every cell is missing. */
  function LatestPresent<T>(cells: seq<Option<T>>): Option<T>
  {
    if cells == [] then None
    else if cells[|cells| - 1].Some? then cells[|cells| - 1]
    else LatestPresent(cells[..|cells| - 1])
  }

  /** `j` is the nearest row at or before `i` whose cell is present. */
  ghost predicate NearestPresent<T>(col: seq<Option<T>>, i: int, j: int) {
    0 <= j <= i < |col| && col[j].Some? && forall k :: j < k <= i ==> col[k].None?
  }

  /** The cells of rows 0..i are all missing. */
  ghost predicate MissingThrough<T>(col: seq<Option<T>>, i: int) {
    forall k :: 0 <= k <= i && k < |col| ==> col[k].None?
  }

  /** Prepending a cell changes the last present cell only when the rest has none. */
  lemma {:induction false} LatestPresentCons<T>(x: Option<T>, rest: seq<Option<T>>)
    ensures LatestPresent([x] + rest) == if LatestPresent(rest).Some? then LatestPresent(rest) else x
  {
    if rest != [] {
      assert ([x] + rest)[..|rest|] == [x] + rest[..|rest| - 1];
      LatestPresentCons(x, rest[..|rest| - 1]);
    }
  }

  /** The last present cell of a prefix is the cell of the nearest present row, if any. */
  lemma {:induction false} LatestPresentIsNearest<T>(col: seq<Option<T>>, i: nat)
    requires i < |col|
    ensures LatestPresent(col[..i + 1]).None? <==> MissingThrough(col, i)
    ensures forall j :: NearestPresent(col, i, j) ==> LatestPresent(col[..i + 1]) == col[j]
  {
    assert col[..i + 1][..i] == col[..i];
    if i > 0 {
      LatestPresentIsNearest(col, i - 1);
    } else {
      assert col[..0] == [];
    }
  }

  /** Forward fill starting from the carried value `last`. */
  function FillFrom<T>(col: seq<Option<T>>, last: Option<T>): (r: seq<Option<T>>)
    ensures |r| == |col|
    ensures forall i :: 0 <= i < |col| ==>
              r[i] == if LatestPresent(col[..i + 1]).Some? then LatestPresent(col[..i + 1]) else last
    decreases |col|
  {
    if col == [] then []
    else
      var carried := if col[0].Some? then col[0] else last;
      var r := [carried] + FillFrom(col[1..], carried);
      assert forall i :: 0 <= i < |col| ==>
          r[i] == if LatestPresent(col[..i + 1]).Some? then LatestPresent(col[..i + 1]) else last
      by {
        forall i | 0 <= i < |col|
          ensures r[i] == if LatestPresent(col[..i + 1]).Some? then LatestPresent(col[..i + 1]) else last
        {
          assert col[..1] == [col[0]] + [];
          if i > 0 {
            assert col[..i + 1] == [col[0]] + col[1..][..i];
            LatestPresentCons(col[0], col[1..][..i]);
          }
        }
      }
      r
  }

  /**
   * `Series.ffill()`: a missing cell takes the value of the nearest earlier present
   * cell; a present cell, and a missing cell with no present cell before it, stay.
   */
  function FFill<T>(col: seq<Option<T>>): (r: seq<Option<T>>)
    ensures |r| == |col|
    ensures forall i :: 0 <= i < |col| && col[i].Some? ==> r[i] == col[i]
    ensures forall i, j :: NearestPresent(col, i, j) ==> r[i] == col[j]
    ensures forall i :: 0 <= i < |col| ==> (r[i].None? <==> MissingThrough(col, i))
    ensures IsForwardFill(col, r)
  {
    var r := FillFrom(col, None);
    assert forall i :: 0 <= i < |col| ==>
        (r[i].None? <==> MissingThrough(col, i)) && forall j :: NearestPresent(col, i, j) ==> r[i] == col[j]
    by {
      forall i | 0 <= i < |col| {
        LatestPresentIsNearest(col, i);
      }
    }
    assert forall i :: 0 <= i < |col| && col[i].Some? ==> NearestPresent(col, i, i);
    r
  }

  /**
   * `r` is a forward fill of `col`: same length, every cell equal to the nearest present
   * cell at or before it, missing where no cell up to it is present.
   */
  ghost predicate IsForwardFill<T>(col: seq<Option<T>>, r: seq<Option<T>>) {
    && |r| == |col|
    && (forall i, j :: NearestPresent(col, i, j) ==> r[i] == col[j])
    && (forall i :: 0 <= i < |col| && MissingThrough(col, i) ==> r[i].None?)
  }

  /** Every row has a nearest present row at or before it unless all rows up to it are missing. */
  lemma {:induction false} NearestExists<T>(col: seq<Option<T>>, i: nat)
    requires i < |col| && !MissingThrough(col, i)
    ensures exists j :: NearestPresent(col, i, j)
  {
    if col[i].Some? {
      assert NearestPresent(col, i, i);
    } else {
      assert !MissingThrough(col, i - 1);
      NearestExists(col, i - 1);
      var j :| NearestPresent(col, i - 1, j);
      assert NearestPresent(col, i, j);
    }
  }

  /** The forward fill of a column is unique, and `FFill` computes it. */
  lemma ForwardFillUnique<T>(col: seq<Option<T>>, r: seq<Option<T>>)
    requires IsForwardFill(col, r)
    ensures r == FFill(col)
  {
    var f := FFill(col);
    forall i | 0 <= i < |col|
      ensures r[i] == f[i]
    {
      if !MissingThrough(col, i) {
        NearestExists(col, i);
      }
    }
  }

  /** A column with no missing cell is left as it is. */
  lemma FFillComplete<T>(col: seq<Option<T>>)
    requires forall i :: 0 <= i < |col| ==> col[i].Some?
    ensures FFill(col) == col
  {
  }

  /** Filling a filled column changes nothing. */
  lemma FFillIdempotent<T>(col: seq<Option<T>>)
    ensures FFill(FFill(col)) == FFill(col)
  {
    var r := FFill(col);
    var rr := FFill(r);
    forall i | 0 <= i < |col|
      ensures rr[i] == r[i]
    {
      if r[i].None? {
        assert MissingThrough(col, i);
        assert MissingThrough(r, i) by {
          forall k | 0 <= k <= i
            ensures r[k].None?
          {
            assert MissingThrough(col, k);
          }
        }
      }
    }
  }

  // ---------------------------------------------------------------------------
  // Most frequent value (`Series.mode().iloc[0]`)
  // ---------------------------------------------------------------------------

  /** How many cells of `col` hold `v`. */
  function Count<T(==)>(col: seq<Option<T>>, v: T): nat
  {
    if col == [] then 0
    else (if col[0] == Some(v) then 1 else 0) + Count(col[1..], v)
  }

  /**
   * `v` comes before `w` in the list `Series.mode()` would build from `col`:
   * more occurrences, or as many and smaller (the modes come sorted).
   */
  predicate Outranks(col: seq<Option<string>>, v: string, w: string) {
    Count(col, v) > Count(col, w) || (Count(col, v) == Count(col, w) && LexLess(v, w))
  }

  /**
   * `m` is the first entry of `Series.mode()`: it occurs in `col` and outranks every other
   * value, that is, it is a most frequent value and the smallest among those.
   */
  ghost predicate IsModeOf(col: seq<Option<string>>, m: string) {
    Count(col, m) > 0 && forall v :: v != m ==> Outranks(col, m, v)
  }

  /** A value is counted exactly when some cell holds it. */
  lemma {:induction false} CountPositive(col: seq<Option<string>>, v: string)
    ensures Count(col, v) > 0 <==> Some(v) in col
  {
    if col != [] {
      CountPositive(col[1..], v);
      assert col == [col[0]] + col[1..];
    }
  }

  /** No present cell in rows [0, k) outranks `best`. */
  ghost predicate LeadsUpTo(col: seq<Option<string>>, k: int, best: string) {
    forall i :: 0 <= i < k && i < |col| && col[i].Some? ==> !Outranks(col, col[i].value, best)
  }

  lemma OutranksTransitive(col: seq<Option<string>>, u: string, v: string, w: string)
    requires Outranks(col, u, v) && Outranks(col, v, w)
    ensures Outranks(col, u, w)
  {
    if Count(col, u) == Count(col, v) == Count(col, w) {
      LexLessTransitive(u, v, w);
    }
  }

  /** Scans rows k.. of `col`, keeping the best-ranked value seen so far. */
  function ModeFrom(col: seq<Option<string>>, k: nat, best: Option<string>): (m: Option<string>)
    requires k <= |col|
    requires best.None? ==> MissingThrough(col, k - 1)
    requires best.Some? ==> Some(best.value) in col && LeadsUpTo(col, k, best.value)
    ensures m.None? <==> MissingThrough(col, |col| - 1)
    ensures m.Some? ==> Some(m.value) in col && LeadsUpTo(col, |col|, m.value)
    decreases |col| - k
  {
    if k == |col| then best
    else match col[k]
      case None => ModeFrom(col, k + 1, best)
      case Some(v) =>
        if best.None? || Outranks(col, v, best.value) then
          LexLessIrreflexive(v);
          assert LeadsUpTo(col, k + 1, v) by {
            forall i | 0 <= i < k + 1 && col[i].Some?
              ensures !Outranks(col, col[i].value, v)
            {
              if i < k && Outranks(col, col[i].value, v) {
                OutranksTransitive(col, col[i].value, v, best.value);
              }
            }
          }
          ModeFrom(col, k + 1, Some(v))
        else
          ModeFrom(col, k + 1, best)
  }

  /**
   * `Series.mode().iloc[0]`: the most frequent present value, the smallest of them on
   * a tie; `None` when no cell is present (where `iloc[0]` raises).
   */
  function Mode(col: seq<Option<string>>): (m: Option<string>)
    ensures m.None? <==> forall i :: 0 <= i < |col| ==> col[i].None?
    ensures m.Some? ==> IsModeOf(col, m.value)
  {
    var m := ModeFrom(col, 0, None);
    assert m.Some? ==> IsModeOf(col, m.value) by {
      if m.Some? {
        CountPositive(col, m.value);
        forall v | v != m.value
          ensures Outranks(col, m.value, v)
        {
          CountPositive(col, v);
          if Count(col, v) > 0 {
            var i :| 0 <= i < |col| && col[i] == Some(v);
            assert !Outranks(col, v, m.value);
            LexLessTotal(v, m.value);
          }
        }
      }
    }
    m
  }

  /** The mode is determined: two values that both satisfy `IsModeOf` are equal. */
  lemma ModeUnique(col: seq<Option<string>>, m1: string, m2: string)
    requires IsModeOf(col, m1) && IsModeOf(col, m2)
    ensures m1 == m2
  {
    if m1 != m2 {
      assert Outranks(col, m1, m2) && Outranks(col, m2, m1);
      LexLessTransitive(m1, m2, m1);
      LexLessIrreflexive(m1);
    }
  }

  /** On a tie the smaller string wins, not the one met first. */
  lemma ModeTieTakesSmallest(col: seq<Option<string>>)
    requires col == [Some("b"), Some("a")]
    ensures Mode(col) == Some("a")
  {
    assert col[1..] == [Some("a")] && col[1..][1..] == [];
    assert "a" != "b" by { assert "a"[0] != "b"[0]; }
    assert Count(col[1..][1..], "a") == 0 && Count(col[1..][1..], "b") == 0;
    assert Count(col[1..], "a") == 1 && Count(col[1..], "b") == 0;
    assert Count(col, "a") == 1 && Count(col, "b") == 1;
    assert !LexLess("b", "a");
    var m := Mode(col).value;
    CountPositive(col, m);
    assert m == "a" || m == "b";
  }

  // ---------------------------------------------------------------------------
  // Imputation of `time_zone` and `city`
  // ---------------------------------------------------------------------------

  /** One `time_zone` cell after `.str.strip().replace(to_replace='', value=most)`. */
  function StripOrImpute(cell: Option<string>, most: string): Option<string> {
    match cell
    case None => None
    case Some(s) => if Strip(s) == [] then Some(most) else Some(Strip(s))
  }

  /** One `city` cell after `.replace(to_replace='', value=most)`. */
  function ImputeEmpty(cell: Option<string>, most: string): Option<string> {
    if cell == Some("") then Some(most) else cell
  }

  /**
   * The `time_zone` column after stripping every cell and replacing the ones that strip to
   * the empty string with `most`; missing cells stay missing.
   */
  function ImputeTimeZone(col: seq<Option<string>>, most: string): (r: seq<Option<string>>)
    ensures |r| == |col|
    ensures forall i :: 0 <= i < |col| ==> (r[i].None? <==> col[i].None?)
    ensures forall i :: 0 <= i < |col| && col[i].Some? && Strip(col[i].value) != [] ==> r[i] == Some(Strip(col[i].value))
    ensures forall i :: 0 <= i < |col| && col[i].Some? && Strip(col[i].value) == [] ==> r[i] == Some(most)
  {
    seq(|col|, i requires 0 <= i < |col| => StripOrImpute(col[i], most))
  }

  /** The `city` column after replacing every empty string with `most`; nothing else changes. */
  function ImputeCity(col: seq<Option<string>>, most: string): (r: seq<Option<string>>)
    ensures |r| == |col|
    ensures forall i :: 0 <= i < |col| && col[i] == Some("") ==> r[i] == Some(most)
    ensures forall i :: 0 <= i < |col| && col[i] != Some("") ==> r[i] == col[i]
  {
    seq(|col|, i requires 0 <= i < |col| => ImputeEmpty(col[i], most))
  }

  /** A column has a mode exactly when it has a present cell; this is the direction from the mode. */
  lemma ModeHasPresent(col: seq<Option<string>>)
    requires Mode(col).Some?
    ensures exists i :: 0 <= i < |col| && col[i].Some?
  {
  }

  /** A present cell stays present through either imputation, so both imputed columns have a mode. */
  lemma ImputeKeepsPresent(col: seq<Option<string>>, mostTz: string, mostC: string, i: nat)
    requires i < |col| && col[i].Some?
    ensures Mode(ImputeTimeZone(col, mostTz)).Some? && Mode(ImputeCity(col, mostC)).Some?
  {
    assert ImputeTimeZone(col, mostTz)[i].Some? && ImputeCity(col, mostC)[i].Some?;
  }

  /** A column that has a mode still has one after either imputation. */
  lemma ImputeKeepsMode(col: seq<Option<string>>, mostTz: string, mostC: string)
    requires Mode(col).Some?
    ensures Mode(ImputeTimeZone(col, mostTz)).Some? && Mode(ImputeCity(col, mostC)).Some?
  {
    ModeHasPresent(col);
    var i :| 0 <= i < |col| && col[i].Some?;
    ImputeKeepsPresent(col, mostTz, mostC, i);
  }

  /**
   * Re-imputing a `time_zone` column changes nothing when the value put in is itself
   * stripped and non-empty, whatever value the second pass would put in.
   */
  lemma ImputeTimeZoneIdempotent(col: seq<Option<string>>, most: string, again: string)
    requires most != [] && Strip(most) == most
    ensures ImputeTimeZone(ImputeTimeZone(col, most), again) == ImputeTimeZone(col, most)
  {
    var r := ImputeTimeZone(col, most);
    forall i | 0 <= i < |col| && r[i].Some?
      ensures Strip(r[i].value) == r[i].value != []
    {
      if Strip(col[i].value) != [] {
        StripIdempotent(col[i].value);
      }
    }
  }

  /**
   * Re-imputing a `city` column changes nothing when the value put in is non-empty, or
   * when it is `""` and the second pass puts in `""` again.
   */
  lemma ImputeCityIdempotent(col: seq<Option<string>>, most: string, again: string)
    requires most != [] || again == []
    ensures ImputeCity(ImputeCity(col, most), again) == ImputeCity(col, most)
  {
  }
}
