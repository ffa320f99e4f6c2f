/**
 * Rows of the decoded mappings table, and the order the decoder puts them in. A line is sorted by
 * insertion from the right; that keeps the order of the rows at one column, and no other
 * arrangement is both in column order and stable in this way.
 */
module MappingRows {

  /** One row: six 32-bit cells, -1 where a field is missing. */
  datatype Row = Row(genLine: int, genCol: int, source: int, line: int, column: int, name: int)

  function Last(xs: seq<Row>): Row
    requires xs != []
  {
    xs[|xs| - 1]
  }

  function Front(xs: seq<Row>): (ys: seq<Row>)
    requires xs != []
    ensures ys + [Last(xs)] == xs
  {
    xs[..|xs| - 1]
  }

  /** Moves `r` left past every row with a greater column. */
  function Insert(xs: seq<Row>, r: Row): (ys: seq<Row>)
    ensures |ys| == |xs| + 1
  {
    if xs == [] || Last(xs).genCol <= r.genCol then xs + [r]
    else Insert(Front(xs), r) + [Last(xs)]
  }

  function SortRows(xs: seq<Row>): (ys: seq<Row>)
    ensures |ys| == |xs|
  {
    if xs == [] then [] else Insert(SortRows(Front(xs)), Last(xs))
  }

  /** No column is followed by a smaller one. */
  ghost predicate Ascending(xs: seq<Row>) {
    forall i, j :: 0 <= i < j < |xs| ==> xs[i].genCol <= xs[j].genCol
  }

  /** The rows at column `c`, in their order. */
  function AtColumn(xs: seq<Row>, c: int): seq<Row> {
    if xs == [] then []
    else AtColumn(Front(xs), c) + if Last(xs).genCol == c then [Last(xs)] else []
  }

  /** `ys` is `xs` with its rows in ascending column order, rows at one column in the
      order they had. */
  ghost predicate StablySorted(xs: seq<Row>, ys: seq<Row>) {
    && Ascending(ys)
    && forall c :: AtColumn(ys, c) == AtColumn(xs, c)
  }

  lemma {:induction false} AtColumnAppend(xs: seq<Row>, r: Row, c: int)
    ensures AtColumn(xs + [r], c) == AtColumn(xs, c) + if r.genCol == c then [r] else []
  {
    assert Front(xs + [r]) == xs && Last(xs + [r]) == r;
  }

  lemma {:induction false} AtColumnEmpty(xs: seq<Row>, c: int)
    requires forall i :: 0 <= i < |xs| ==> xs[i].genCol != c
    ensures AtColumn(xs, c) == []
  {
    if xs != [] {
      AtColumnEmpty(Front(xs), c);
    }
  }

  lemma {:induction false} InsertAscends(xs: seq<Row>, r: Row)
    requires Ascending(xs)
    ensures Ascending(Insert(xs, r))
    ensures Last(Insert(xs, r)).genCol == if xs == [] || Last(xs).genCol <= r.genCol then r.genCol else Last(xs).genCol
  {
    if xs != [] && Last(xs).genCol > r.genCol {
      AscendingFront(xs);
      hide Ascending;
      InsertAscends(Front(xs), r);
      AscendingAppend(Insert(Front(xs), r), Last(xs));
    } else {
      AscendingAppend(xs, r);
    }
  }

  lemma {:induction false} AscendingFront(xs: seq<Row>)
    requires Ascending(xs) && xs != []
    ensures Ascending(Front(xs)) && (|xs| > 1 ==> Last(Front(xs)).genCol <= Last(xs).genCol)
  {
    forall i, j | 0 <= i < j < |xs| - 1 ensures Front(xs)[i].genCol <= Front(xs)[j].genCol {
      assert xs[i].genCol <= xs[j].genCol;
    }
  }

  lemma {:induction false} AscendingAppend(xs: seq<Row>, r: Row)
    requires Ascending(xs) && (xs == [] || Last(xs).genCol <= r.genCol)
    ensures Ascending(xs + [r])
  {
  }

  lemma {:induction false} InsertKeepsOrder(xs: seq<Row>, r: Row, c: int)
    requires Ascending(xs)
    ensures AtColumn(Insert(xs, r), c) == AtColumn(xs + [r], c)
  {
    AtColumnAppend(xs, r, c);
    if xs != [] && Last(xs).genCol > r.genCol {
      InsertKeepsOrder(Front(xs), r, c);
      AtColumnAppend(Front(xs), r, c);
      AtColumnAppend(Insert(Front(xs), r), Last(xs), c);
    }
  }

  lemma {:induction false} SortIsStableAt(xs: seq<Row>, c: int)
    ensures Ascending(SortRows(xs))
    ensures AtColumn(SortRows(xs), c) == AtColumn(xs, c)
  {
    if xs != [] {
      SortIsStableAt(Front(xs), c);
      InsertAscends(SortRows(Front(xs)), Last(xs));
      InsertKeepsOrder(SortRows(Front(xs)), Last(xs), c);
      AtColumnAppend(SortRows(Front(xs)), Last(xs), c);
    }
  }

  lemma {:induction false} SortIsStable(xs: seq<Row>)
    ensures StablySorted(xs, SortRows(xs))
  {
    SortIsStableAt(xs, 0);
    forall c ensures AtColumn(SortRows(xs), c) == AtColumn(xs, c) {
      SortIsStableAt(xs, c);
    }
  }

  /** The stable order is determined by its definition. */
  lemma {:induction false} StableOrderUnique(ys: seq<Row>, zs: seq<Row>)
    requires Ascending(ys) && Ascending(zs)
    requires forall c :: AtColumn(ys, c) == AtColumn(zs, c)
    ensures ys == zs
  {
    if ys == [] || zs == [] {
      var c := if ys != [] then Last(ys).genCol else if zs != [] then Last(zs).genCol else 0;
      assert AtColumn(ys, c) == AtColumn(zs, c);
    } else {
      SameLast(ys, zs);
      forall c ensures AtColumn(Front(ys), c) == AtColumn(Front(zs), c) {
        var a, b, tail := AtColumn(Front(ys), c), AtColumn(Front(zs), c),
          if Last(ys).genCol == c then [Last(ys)] else [];
        assert a + tail == AtColumn(ys, c) == AtColumn(zs, c) == b + tail;
        assert a == (a + tail)[..|a|] && b == (b + tail)[..|b|];
      }
      AscendingFront(ys);
      AscendingFront(zs);
      StableOrderUnique(Front(ys), Front(zs));
    }
  }

  lemma {:induction false} NoneBeyond(xs: seq<Row>, c: int)
    requires Ascending(xs) && xs != [] && Last(xs).genCol < c
    ensures AtColumn(xs, c) == []
  {
    forall i | 0 <= i < |xs| ensures xs[i].genCol != c {
      assert xs[i].genCol <= xs[|xs| - 1].genCol;
    }
    AtColumnEmpty(xs, c);
  }

  lemma {:induction false} LastAtColumn(xs: seq<Row>)
    requires xs != []
    ensures var a := AtColumn(xs, Last(xs).genCol);
            a != [] && a[|a| - 1] == Last(xs)
  {
    assert AtColumn(xs, Last(xs).genCol) == AtColumn(Front(xs), Last(xs).genCol) + [Last(xs)];
  }

  lemma {:induction false} SameLast(ys: seq<Row>, zs: seq<Row>)
    requires Ascending(ys) && Ascending(zs) && ys != [] && zs != []
    requires forall c :: AtColumn(ys, c) == AtColumn(zs, c)
    ensures Last(ys) == Last(zs)
  {
    hide AtColumn, Ascending;
    LastAtColumn(ys);
    LastAtColumn(zs);
    var cy, cz := Last(ys).genCol, Last(zs).genCol;
    assert AtColumn(ys, cy) == AtColumn(zs, cy) && AtColumn(ys, cz) == AtColumn(zs, cz);
    if cy < cz {
      NoneBeyond(ys, cz);
    } else if cz < cy {
      NoneBeyond(zs, cy);
    }
  }

  lemma {:induction false} SortOfAscending(xs: seq<Row>)
    requires Ascending(xs)
    ensures SortRows(xs) == xs
  {
    SortIsStable(xs);
    StableOrderUnique(SortRows(xs), xs);
  }
}
