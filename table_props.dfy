/**
 * What the `table_open` branch of `parse_md_to_notion_blocks` puts in a table: the cells of each
 * row, and when the row/cell loop raises because `current_row` is still unbound.
 */
module TableProps {
  import opened Wrappers
  import opened Tokens
  import opened RichText
  import opened NotionBlocks
  import opened NotionBlocksProps

  /** A `th_open` / `td_open` at `k` directly followed by an `inline`: the loop adds a cell there. */
  predicate IsCellAt(ts: seq<Token>, k: nat)
    requires k < |ts|
  {
    (ts[k].kind == "th_open" || ts[k].kind == "td_open") && k + 1 < |ts| && ts[k + 1].kind == "inline"
  }

  /** A `tr_open` or a `tr_close`. */
  predicate RowMark(t: Token)
  {
    t.kind == "tr_open" || t.kind == "tr_close"
  }

  /** The cells of the cell openers in `ts[a..b]`, in order: the spans of the `inline` after each. */
  function CellsOf(ts: seq<Token>, a: nat, b: nat): (cells: Row)
    requires a <= b <= |ts|
    ensures |cells| <= b - a
    decreases b - a
  {
    if a == b then []
    else (if IsCellAt(ts, a) then [Spans(ts[a + 1].children)] else []) + CellsOf(ts, a + 1, b)
  }

  /**
   * The rows of a table scope laid out by `opens` / `closes`: the row opened at `opens[n]` and
   * closed at `closes[n]` holds the cells between them.
   */
  function RowsOf(ts: seq<Token>, opens: seq<nat>, closes: seq<nat>): (rows: seq<Row>)
    requires |opens| == |closes|
    requires forall n :: 0 <= n < |opens| ==> opens[n] < closes[n] <= |ts|
    ensures |rows| == |opens|
    ensures forall n :: 0 <= n < |opens| ==> rows[n] == CellsOf(ts, opens[n] + 1, closes[n])
  {
    seq(|opens|, n requires 0 <= n < |opens| => CellsOf(ts, opens[n] + 1, closes[n]))
  }

  /**
   * The scope `ts[i + 1..stop]` is a sequence of rows: the `tr_open`s are exactly at `opens`, the
   * `tr_close`s exactly at `closes`, each row closes before the next opens, and every cell opener
   * followed by an `inline` sits inside a row.
   */
  predicate TableShape(ts: seq<Token>, i: nat, stop: nat, opens: seq<nat>, closes: seq<nat>)
    requires stop <= |ts|
  {
    |opens| == |closes| &&
    (forall n :: 0 <= n < |opens| ==> i < opens[n] < closes[n] < stop) &&
    (forall n, m :: 0 <= n < m < |opens| ==> closes[n] < opens[m]) &&
    forall k :: i < k < stop ==> MarksAt(ts, opens, closes, k)
  }

  /**
   * At `k`: a `tr_open` exactly when `k` is in `opens`, a `tr_close` exactly when it is in
   * `closes`, and a cell only strictly inside some row.
   */
  predicate MarksAt(ts: seq<Token>, opens: seq<nat>, closes: seq<nat>, k: nat)
    requires k < |ts|
  {
    (ts[k].kind == "tr_open" <==> k in opens) &&
    (ts[k].kind == "tr_close" <==> k in closes) &&
    (IsCellAt(ts, k) ==> exists n :: 0 <= n < |opens| && n < |closes| && opens[n] < k < closes[n])
  }

  // ---------------------------------------------------------------------------------------------
  // One token of the scan

  /** Inside a row, a token that is no row mark appends its cell, if it is one. */
  lemma TokenInRow(ts: seq<Token>, k: nat, st: TableScan)
    requires k < |ts| && st.current.Some? && !RowMark(ts[k])
    ensures TableToken(ts, k, st) ==
      Ok(st.(current := Some(st.current.value + if IsCellAt(ts, k) then [Spans(ts[k + 1].children)] else [])))
  {
    if !IsCellAt(ts, k) {
      assert st.current.value + [] == st.current.value;
    }
  }

  /** Before any row, a token other than `tr_open` raises if it uses `current_row`, else is skipped. */
  lemma TokenUnbound(ts: seq<Token>, k: nat, st: TableScan)
    requires k < |ts| && st.current.None? && ts[k].kind != "tr_open"
    ensures TableToken(ts, k, st) == if Unbound(ts, k) then Err(NameError) else Ok(st)
  {
  }

  /** A token the scan accepts hands its new state on to the rest of the scan. */
  lemma TokensStep(ts: seq<Token>, a: nat, end: nat, st: TableScan, st': TableScan)
    requires a < end <= |ts| && TableToken(ts, a, st) == Ok(st')
    ensures TableTokens(ts, a, end, st) == TableTokens(ts, a + 1, end, st')
  {
  }

  // ---------------------------------------------------------------------------------------------
  // Stretches of the scan

  /** Tokens that are neither row marks nor cells leave the scan as it is. */
  lemma {:induction false} SkipNeutral(ts: seq<Token>, a: nat, b: nat, end: nat, st: TableScan)
    requires a <= b <= end <= |ts|
    requires forall m :: a <= m < b ==> !RowMark(ts[m]) && !IsCellAt(ts, m)
    ensures TableTokens(ts, a, end, st) == TableTokens(ts, b, end, st)
    decreases b - a
  {
    if a < b {
      assert TableToken(ts, a, st) == Ok(st) by {
        if st.current.Some? { TokenInRow(ts, a, st); } else { TokenUnbound(ts, a, st); }
      }
      SkipNeutral(ts, a + 1, b, end, st);
    }
  }

  /** Inside a row, the cells are appended to `current_row` in order. */
  lemma {:induction false} SkipCells(ts: seq<Token>, a: nat, b: nat, end: nat, st: TableScan)
    requires a <= b <= end <= |ts| && st.current.Some?
    requires forall m :: a <= m < b ==> !RowMark(ts[m])
    ensures TableTokens(ts, a, end, st) ==
      TableTokens(ts, b, end, st.(current := Some(st.current.value + CellsOf(ts, a, b))))
    decreases b - a
  {
    if a == b {
      assert st.current.value + CellsOf(ts, a, b) == st.current.value;
    } else {
      var cur := st.current.value;
      var cell := if IsCellAt(ts, a) then [Spans(ts[a + 1].children)] else [];
      var st' := st.(current := Some(cur + cell));
      TokenInRow(ts, a, st);
      TokensStep(ts, a, end, st, st');
      SkipCells(ts, a + 1, b, end, st');
      assert CellsOf(ts, a, b) == cell + CellsOf(ts, a + 1, b);
      assert cur + cell + CellsOf(ts, a + 1, b) == cur + (cell + CellsOf(ts, a + 1, b));
    }
  }

  /** A `tr_open` at `a` and its `tr_close` at `b` add one row: the cells between them. */
  lemma {:induction false} SkipRow(ts: seq<Token>, a: nat, b: nat, end: nat, st: TableScan)
    requires a < b < end <= |ts|
    requires ts[a].kind == "tr_open" && ts[b].kind == "tr_close"
    requires forall m :: a < m < b ==> !RowMark(ts[m])
    ensures TableTokens(ts, a, end, st) ==
      TableTokens(ts, b + 1, end, TableScan(Collected(st), Some(CellsOf(ts, a + 1, b)), 1))
  {
    var begun := TableScan(Collected(st), Some([]), 0);
    assert TableToken(ts, a, st) == Ok(begun);
    SkipCells(ts, a + 1, b, end, begun);
    var filled := begun.(current := Some([] + CellsOf(ts, a + 1, b)));
    assert [] + CellsOf(ts, a + 1, b) == CellsOf(ts, a + 1, b);
    assert TableToken(ts, b, filled) == Ok(TableScan(Collected(st), Some(CellsOf(ts, a + 1, b)), 1));
  }

  /** A position between row `n - 1` and row `n` is no row mark and no cell. */
  lemma {:induction false} GapIsNeutral(ts: seq<Token>, i: nat, stop: nat, opens: seq<nat>, closes: seq<nat>, n: nat, k: nat)
    requires stop <= |ts| && TableShape(ts, i, stop, opens, closes) && n <= |opens|
    requires (if n == 0 then i + 1 else closes[n - 1] + 1) <= k < (if n < |opens| then opens[n] else stop)
    ensures !RowMark(ts[k]) && !IsCellAt(ts, k)
  {
    assert MarksAt(ts, opens, closes, k);
    forall j | 0 <= j < |opens|
      ensures opens[j] != k && closes[j] != k && !(opens[j] < k < closes[j])
    {
      if j < n {
        assert closes[j] <= closes[n - 1] by {
          if j < n - 1 { assert closes[j] < opens[n - 1]; }
        }
      } else {
        assert opens[n] <= opens[j] by {
          if j > n { assert closes[n] < opens[j]; }
        }
      }
    }
  }

  /** A position inside row `n` is no row mark. */
  lemma {:induction false} InsideRowIsPlain(ts: seq<Token>, i: nat, stop: nat, opens: seq<nat>, closes: seq<nat>, n: nat, k: nat)
    requires stop <= |ts| && TableShape(ts, i, stop, opens, closes) && n < |opens|
    requires opens[n] < k < closes[n]
    ensures !RowMark(ts[k])
  {
    assert MarksAt(ts, opens, closes, k);
    forall j | 0 <= j < |opens|
      ensures opens[j] != k && closes[j] != k
    {
      if j < n {
        assert closes[j] < opens[n];
      } else if j > n {
        assert closes[n] < opens[j];
      }
    }
  }

  /** The start of the gap before row `n` (row `n - 1` has just closed). */
  function GapStart(i: nat, closes: seq<nat>, n: nat): nat
    requires n <= |closes|
  {
    if n == 0 then i + 1 else closes[n - 1] + 1
  }

  /** The end of the gap before row `n`: its `tr_open`, or the scope end after the last row. */
  function GapEnd(stop: nat, opens: seq<nat>, n: nat): nat
    requires n <= |opens|
  {
    if n < |opens| then opens[n] else stop
  }

  /** The gap before row `n` leaves the scan as it is. */
  lemma {:induction false} SkipGap(ts: seq<Token>, i: nat, stop: nat, opens: seq<nat>, closes: seq<nat>, n: nat, st: TableScan)
    requires stop <= |ts| && TableShape(ts, i, stop, opens, closes) && n <= |opens|
    requires i < stop
    ensures GapStart(i, closes, n) <= GapEnd(stop, opens, n) <= stop
    ensures TableTokens(ts, GapStart(i, closes, n), stop, st) == TableTokens(ts, GapEnd(stop, opens, n), stop, st)
  {
    var a, g := GapStart(i, closes, n), GapEnd(stop, opens, n);
    if 0 < n < |opens| { assert closes[n - 1] < opens[n]; }
    forall k | a <= k < g ensures !RowMark(ts[k]) && !IsCellAt(ts, k) {
      GapIsNeutral(ts, i, stop, opens, closes, n, k);
    }
    SkipNeutral(ts, a, g, stop, st);
  }

  /** Row `n` adds its cells as one more collected row. */
  lemma {:induction false} SkipRowN(ts: seq<Token>, i: nat, stop: nat, opens: seq<nat>, closes: seq<nat>, n: nat, st: TableScan)
    requires stop <= |ts| && TableShape(ts, i, stop, opens, closes) && n < |opens|
    ensures TableTokens(ts, opens[n], stop, st) ==
      TableTokens(ts, closes[n] + 1, stop, TableScan(Collected(st), Some(RowsOf(ts, opens, closes)[n]), 1))
  {
    var o, c := opens[n], closes[n];
    assert i < o < c < stop;
    assert ts[o].kind == "tr_open" && ts[c].kind == "tr_close" by {
      assert MarksAt(ts, opens, closes, o) && MarksAt(ts, opens, closes, c);
      assert o in opens && c in closes;
    }
    forall k | o < k < c ensures !RowMark(ts[k]) {
      InsideRowIsPlain(ts, i, stop, opens, closes, n, k);
    }
    SkipRow(ts, o, c, stop, st);
    assert RowsOf(ts, opens, closes)[n] == CellsOf(ts, o + 1, c);
  }

  /** A row closed once is collected once. */
  lemma CollectOne(st: TableScan, r: Row)
    ensures Collected(TableScan(Collected(st), Some(r), 1)) == Collected(st) + [r]
  {
    assert Repeat(r, 1) == [r];
  }

  /** From the end of row `n - 1` on, the scan collects the remaining rows and nothing else. */
  lemma {:induction false} RowsFrom(ts: seq<Token>, i: nat, stop: nat, opens: seq<nat>, closes: seq<nat>, n: nat, st: TableScan)
    requires stop <= |ts| && TableShape(ts, i, stop, opens, closes) && n <= |opens| && i < stop
    requires Collected(st) == RowsOf(ts, opens, closes)[..n]
    ensures GapStart(i, closes, n) <= stop
    ensures var r := TableTokens(ts, GapStart(i, closes, n), stop, st);
      r.Ok? && Collected(r.value) == RowsOf(ts, opens, closes)
    decreases |opens| - n
  {
    var rows := RowsOf(ts, opens, closes);
    SkipGap(ts, i, stop, opens, closes, n, st);
    if n == |opens| {
      assert rows[..n] == rows;
    } else {
      SkipRowN(ts, i, stop, opens, closes, n, st);
      var st' := TableScan(Collected(st), Some(rows[n]), 1);
      CollectOne(st, rows[n]);
      assert rows[..n + 1] == rows[..n] + [rows[n]];
      RowsFrom(ts, i, stop, opens, closes, n + 1, st');
    }
  }

  /**
   * A closed table laid out as rows emits one table block whose `n`-th row holds exactly the cells
   * between the `n`-th `tr_open` and its `tr_close`, in order, whatever `current_row` was; with no
   * row it emits nothing. The cursor lands just past the `table_close`.
   */
  lemma {:induction false} TableContents(ts: seq<Token>, i: nat, row: Option<Row>, stop: nat, opens: seq<nat>, closes: seq<nat>)
    requires i < |ts| && ScopeEnd(ts, i, stop, "table_close") && stop < |ts|
    requires TableShape(ts, i, stop, opens, closes)
    ensures TableTurn(ts, i, row).Ok?
    ensures var o := TableTurn(ts, i, row).value; var rows := RowsOf(ts, opens, closes);
      o.next == stop + 1 && o.tokens == ts &&
      o.emitted == (if opens == [] then [] else [TableBlock(rows)])
  {
    ScopeEndIsFound(ts, i, stop, "table_close");
    var init := TableScan([], row, 0);
    assert Collected(init) == RowsOf(ts, opens, closes)[..0];
    RowsFrom(ts, i, stop, opens, closes, 0, init);
  }

  // ---------------------------------------------------------------------------------------------
  // When the loop raises

  /** A row end, or a cell opener followed by an `inline`: each uses `current_row`. */
  predicate Unbound(ts: seq<Token>, k: nat)
    requires k < |ts|
  {
    ts[k].kind == "tr_close" || IsCellAt(ts, k)
  }

  /** Once `current_row` is bound it stays bound, and the scan cannot raise. */
  lemma {:induction false} BoundNeverRaises(ts: seq<Token>, a: nat, end: nat, st: TableScan)
    requires a <= end <= |ts| && st.current.Some?
    ensures TableTokens(ts, a, end, st).Ok?
    decreases end - a
  {
    if a < end {
      var r := TableToken(ts, a, st);
      assert r.Ok? && r.value.current.Some?;
      BoundNeverRaises(ts, a + 1, end, r.value);
    }
  }

  /**
   * While `current_row` is unbound and no `tr_open` comes, the scan raises `NameError` at the first
   * row end or cell, and otherwise reaches `p` unchanged.
   */
  lemma {:induction false} UnboundUntilRow(ts: seq<Token>, a: nat, p: nat, end: nat, st: TableScan)
    requires a <= p <= end <= |ts| && st.current.None?
    requires forall m :: a <= m < p ==> ts[m].kind != "tr_open"
    ensures TableTokens(ts, a, end, st) ==
      if exists m :: a <= m < p && Unbound(ts, m) then Err(NameError) else TableTokens(ts, p, end, st)
    decreases p - a
  {
    if a < p {
      TokenUnbound(ts, a, st);
      if !Unbound(ts, a) {
        UnboundUntilRow(ts, a + 1, p, end, st);
        assert (exists m :: a <= m < p && Unbound(ts, m)) <==> (exists m :: a + 1 <= m < p && Unbound(ts, m));
      }
    }
  }

  /**
   * A table raises exactly when `current_row` was never bound, the table is closed, and a row end
   * or a cell followed by an `inline` comes before the first `tr_open` of the scope (at `p`, or
   * `stop` when there is none); the exception is then `NameError`.
   */
  lemma {:induction false} TableRaises(ts: seq<Token>, i: nat, row: Option<Row>, stop: nat, p: nat)
    requires i < |ts| && ScopeEnd(ts, i, stop, "table_close")
    requires i < p <= stop && (p < stop ==> ts[p].kind == "tr_open")
    requires forall m :: i < m < p ==> ts[m].kind != "tr_open"
    ensures TableTurn(ts, i, row).Err? <==>
      row.None? && stop < |ts| && exists m :: i < m < p && Unbound(ts, m)
    ensures TableTurn(ts, i, row).Err? ==> TableTurn(ts, i, row).error == NameError
  {
    ScopeEndIsFound(ts, i, stop, "table_close");
    if stop < |ts| {
      var init := TableScan([], row, 0);
      if row.Some? {
        BoundNeverRaises(ts, i + 1, stop, init);
      } else {
        UnboundUntilRow(ts, i + 1, p, stop, init);
        if p < stop {
          var st' := TableScan(Collected(init), Some([]), 0);
          assert TableToken(ts, p, init) == Ok(st');
          BoundNeverRaises(ts, p + 1, stop, st');
        }
      }
    }
  }
}
