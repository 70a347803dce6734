/**
 * What one turn of `parse_md_to_notion_blocks` does, branch by branch, stated without the
 * branch functions: where the cursor lands, how many blocks are emitted and what they hold.
 */
module NotionBlocksProps {
  import opened Wrappers
  import opened Text
  import opened Tokens
  import opened RichText
  import opened CodeLanguage
  import opened Alerts
  import opened NotionBlocks

  /** The number of tokens of type `kind` in `ts[k..end]`. */
  function CountKind(ts: seq<Token>, k: nat, end: nat, kind: string): nat
    requires k <= end <= |ts|
    decreases end - k
  {
    if k == end then 0 else (if ts[k].kind == kind then 1 else 0) + CountKind(ts, k + 1, end, kind)
  }

  /** `stop` closes the scope opened at `i`: it is the first `close` after `i`, or the end when there is none. */
  predicate ScopeEnd(ts: seq<Token>, i: nat, stop: nat, close: string)
  {
    i < stop <= |ts| && (stop < |ts| ==> ts[stop].kind == close) &&
    forall m :: i < m < stop ==> ts[m].kind != close
  }

  /** `f` is the first `inline` token strictly between `i` and `stop`. */
  predicate FirstInlineAt(ts: seq<Token>, i: nat, stop: nat, f: nat)
    requires stop <= |ts|
  {
    i < f < stop && ts[f].kind == "inline" && forall m :: i < m < f ==> ts[m].kind != "inline"
  }

  lemma {:induction false} ScopeEndIsFound(ts: seq<Token>, i: nat, stop: nat, close: string)
    requires ScopeEnd(ts, i, stop, close)
    ensures var c := FindKind(ts, i + 1, close);
      (if c.Some? then c.value else |ts|) == stop
  {
  }

  lemma {:induction false} FirstInlineIsFound(ts: seq<Token>, i: nat, stop: nat)
    requires i < stop <= |ts|
    ensures var f := FirstInline(ts, i + 1, stop);
      (f.None? <==> forall m :: i < m < stop ==> ts[m].kind != "inline") &&
      (forall g: nat :: FirstInlineAt(ts, i, stop, g) ==> f == Some(g))
  {
    var f := FirstInline(ts, i + 1, stop);
    if f.Some? {
      assert ts[f.value].kind == "inline";
    }
  }

  /**
   * A heading: level `min(digit, 3)`, emitted whenever an `inline` follows, even when its spans are
   * empty; the cursor always moves by 3.
   */
  lemma {:induction false} HeadingStep(ts: seq<Token>, i: nat, row: Option<Row>)
    requires i < |ts| && ts[i].kind == "heading_open"
    requires |ts[i].tag| >= 2 && IsDigit(ts[i].tag[1])
    ensures Step(ts, i, row).Ok?
    ensures var o := Step(ts, i, row).value;
      var d := ts[i].tag[1] as int - '0' as int;
      o.next == i + 3 && o.tokens == ts && o.row == row && |o.emitted| <= 1 &&
      (o.emitted != [] <==> i + 1 < |ts| && ts[i + 1].kind == "inline") &&
      (o.emitted != [] ==>
        o.emitted[0] == Heading(if d < 3 then d else 3, Spans(ts[i + 1].children)))
  {
  }

  /** A heading tag without a digit in second place raises, so the whole document gives `[]`. */
  lemma {:induction false} HeadingTagErrors(ts: seq<Token>, i: nat, row: Option<Row>)
    requires i < |ts| && ts[i].kind == "heading_open"
    ensures |ts[i].tag| < 2 ==> Step(ts, i, row) == Err(IndexError)
    ensures |ts[i].tag| >= 2 && !IsDigit(ts[i].tag[1]) ==> Step(ts, i, row) == Err(ValueError)
  {
  }

  /** A paragraph is emitted exactly when an `inline` follows whose content is not all whitespace. */
  lemma {:induction false} ParagraphStep(ts: seq<Token>, i: nat, row: Option<Row>)
    requires i < |ts| && ts[i].kind == "paragraph_open"
    ensures Step(ts, i, row).Ok?
    ensures var o := Step(ts, i, row).value;
      o.next == i + 3 && o.tokens == ts && o.row == row && |o.emitted| <= 1 &&
      (o.emitted == [] <==>
        !(i + 1 < |ts| && ts[i + 1].kind == "inline") ||
        Blank(ts[i + 1].content)) &&
      (o.emitted != [] ==> o.emitted[0] == Paragraph(Spans(ts[i + 1].children)))
  {
    if i + 1 < |ts| {
      StripEmpty(ts[i + 1].content);
    }
  }

  /**
   * A list item: one bulleted item from the first `inline` of its scope and nothing from any later
   * one; the cursor lands just past the first `list_item_close`, or moves by 1 when there is none.
   */
  lemma {:induction false} ListItemStep(ts: seq<Token>, i: nat, row: Option<Row>, stop: nat)
    requires i < |ts| && ts[i].kind == "list_item_open"
    requires ScopeEnd(ts, i, stop, "list_item_close")
    ensures Step(ts, i, row).Ok?
    ensures var o := Step(ts, i, row).value;
      o.next == (if stop < |ts| then stop + 1 else i + 1) && o.tokens == ts && o.row == row &&
      |o.emitted| <= 1 &&
      (o.emitted == [] <==> forall m :: i < m < stop ==> ts[m].kind != "inline") &&
      forall f: nat :: FirstInlineAt(ts, i, stop, f) ==> o.emitted == [BulletedListItem(Spans(ts[f].children))]
  {
    ScopeEndIsFound(ts, i, stop, "list_item_close");
    FirstInlineIsFound(ts, i, stop);
  }

  /** The dispatch sends a `blockquote_open` token to the blockquote branch. */
  lemma {:induction false} BlockquoteDispatch(ts: seq<Token>, i: nat, row: Option<Row>)
    requires i < |ts| && ts[i].kind == "blockquote_open"
    ensures Step(ts, i, row) == Ok(BlockquoteTurn(ts, i, row))
  {
  }

  /**
   * A blockquote: the first `inline` of its scope becomes a callout when its raw text holds an
   * alert marker (the kind `DetectAlert` picks, with that kind's icon and colour, built from the
   * children with the marker removed) and a quote otherwise; only that inline token is rewritten.
   */
  lemma {:induction false} BlockquoteStep(ts: seq<Token>, i: nat, row: Option<Row>, stop: nat)
    requires i < |ts|
    requires ScopeEnd(ts, i, stop, "blockquote_close")
    ensures var o := BlockquoteTurn(ts, i, row);
      o.next == (if stop < |ts| then stop + 1 else i + 1) && o.row == row && |o.tokens| == |ts| &&
      (o.emitted == [] <==> forall m :: i < m < stop ==> ts[m].kind != "inline") &&
      ((forall m :: i < m < stop ==> ts[m].kind != "inline") ==> o.tokens == ts) &&
      forall f: nat :: FirstInlineAt(ts, i, stop, f) ==>
        var t := ts[f];
        |o.emitted| == 1 &&
        (forall m :: 0 <= m < |ts| && m != f ==> o.tokens[m] == ts[m]) &&
        match DetectAlert(t.content)
        case Some(k) =>
          o.tokens[f] == t.(children := StripTag(t.children, Marker(k))) &&
          o.emitted[0] == Callout(Spans(StripTag(t.children, Marker(k))), Emoji(k), Color(k))
        case None => o.tokens[f] == t && o.emitted[0] == Quote(Spans(t.children))
  {
    ScopeEndIsFound(ts, i, stop, "blockquote_close");
    FirstInlineIsFound(ts, i, stop);
  }

  /**
   * Marker removal touches only `text` children that contain the marker; each of those ends up with
   * every occurrence replaced and then stripped, so it neither starts nor ends with whitespace.
   */
  lemma {:induction false} StripTagEffect(children: seq<Token>, tag: string, n: nat)
    requires tag != [] && n < |children|
    ensures |StripTag(children, tag)| == |children|
    ensures var c := children[n]; var c' := StripTag(children, tag)[n];
      c'.kind == c.kind && c'.children == c.children && c'.href == c.href && c'.src == c.src &&
      (c.kind == "text" && Contains(c.content, tag) ==>
        var s := c'.content;
        Contains(ReplaceAll(c.content, tag, []), s) && (s == [] || (!IsSpace(s[0]) && !IsSpace(s[|s| - 1])))) &&
      (!(c.kind == "text" && Contains(c.content, tag)) ==> c' == c)
  {
    var c := children[n];
    if c.kind == "text" && Contains(c.content, tag) {
      StripIsSubstring(ReplaceAll(c.content, tag, []));
    }
  }

  /** Rows collected by a table scan: one per `tr_close`, whatever the cells. */
  lemma {:induction false} TableRowsCount(ts: seq<Token>, k: nat, end: nat, st: TableScan)
    requires k <= end <= |ts|
    requires st.current.None? ==> st.shared == 0
    ensures TableTokens(ts, k, end, st).Ok? ==>
      |Collected(TableTokens(ts, k, end, st).value)| == |Collected(st)| + CountKind(ts, k, end, "tr_close")
    decreases end - k
  {
    if k < end {
      match TableToken(ts, k, st)
      case Err(_) =>
      case Ok(st') =>
        var t := ts[k];
        if t.kind == "tr_open" {
          assert Collected(st') == Collected(st);
        } else if t.kind == "tr_close" {
          assert Collected(st') == Collected(st) + [st.current.value];
        } else {
          assert |Collected(st')| == |Collected(st)|;
        }
        TableRowsCount(ts, k + 1, end, st');
    }
  }

  /** The dispatch sends a `table_open` token to the table branch. */
  lemma {:induction false} TableDispatch(ts: seq<Token>, i: nat, row: Option<Row>)
    requires i < |ts| && ts[i].kind == "table_open"
    ensures Step(ts, i, row) == TableTurn(ts, i, row)
  {
  }

  /**
   * A table: a block is emitted exactly when its scope holds a `tr_close`, one row per `tr_close`;
   * the width is the longest row, rows are not padded, the first row is a column header and no
   * column is a row header. Without a `table_close` nothing is emitted and the cursor moves by 1.
   */
  lemma {:induction false} TableStep(ts: seq<Token>, i: nat, row: Option<Row>, stop: nat)
    requires i < |ts|
    requires ScopeEnd(ts, i, stop, "table_close")
    ensures stop == |ts| ==> TableTurn(ts, i, row) == Ok(Outcome(ts, i + 1, [], row))
    ensures stop < |ts| && TableTurn(ts, i, row).Ok? ==>
      var o := TableTurn(ts, i, row).value;
      o.next == stop + 1 && o.tokens == ts && |o.emitted| <= 1 &&
      (o.emitted != [] <==> CountKind(ts, i + 1, stop, "tr_close") > 0) &&
      (o.emitted != [] ==>
        var b := o.emitted[0];
        b.Table? && |b.rows| == CountKind(ts, i + 1, stop, "tr_close") &&
        b.hasColumnHeader && !b.hasRowHeader &&
        (forall n :: 0 <= n < |b.rows| ==> |b.rows[n]| <= b.tableWidth) &&
        (exists n :: 0 <= n < |b.rows| && |b.rows[n]| == b.tableWidth))
  {
    ScopeEndIsFound(ts, i, stop, "table_close");
    if stop < |ts| {
      TableRowsCount(ts, i + 1, stop, TableScan([], row, 0));
      if i + 1 == stop {
        assert CountKind(ts, i + 1, stop, "tr_close") == 0;
      }
    }
  }

  /**
   * A code block: a language from Notion's list and the first 2000 characters of the content; only a
   * fence whose info string is non-empty but all whitespace raises.
   */
  lemma {:induction false} CodeStep(ts: seq<Token>, i: nat, row: Option<Row>)
    requires i < |ts| && (ts[i].kind == "fence" || ts[i].kind == "code_block")
    ensures var t := ts[i];
      Step(ts, i, row).Err? <==>
        t.kind == "fence" && t.info != [] && Blank(t.info)
    ensures Step(ts, i, row).Ok? ==>
      var o := Step(ts, i, row).value;
      var c := ts[i].content;
      o.next == i + 1 && o.tokens == ts && o.row == row && |o.emitted| == 1 && o.emitted[0].Code? &&
      o.emitted[0].language in ValidLangs &&
      o.emitted[0].text == c[..if |c| <= 2000 then |c| else 2000]
    ensures ts[i].kind == "code_block" || ts[i].info == [] ==>
      Step(ts, i, row) == Ok(Outcome(ts, i + 1, [Code(CodeText(ts[i].content), PlainText)], row))
  {
    BlockLanguageCases(ts[i]);
  }

  /** A list opener and every token kind the dispatch does not name emit nothing and move the cursor by 1. */
  lemma {:induction false} SkippedStep(ts: seq<Token>, i: nat, row: Option<Row>)
    requires i < |ts|
    requires ts[i].kind !in {"heading_open", "paragraph_open", "list_item_open", "blockquote_open",
                             "table_open", "fence", "code_block", "inline"}
    ensures Step(ts, i, row) == Ok(Outcome(ts, i + 1, [], row))
  {
  }

  /** An `image` child whose `src` is present and non-empty. */
  predicate ShownImage(c: Token)
  {
    c.kind == "image" && c.src.Some? && c.src.value != []
  }

  /**
   * A bare `inline` emits `Images` of its children: image blocks only, each from a shown `image`
   * child, and every shown child among them; `ImagesSpec` pins down their order exactly. The
   * cursor moves by 1.
   */
  lemma {:induction false} InlineStep(ts: seq<Token>, i: nat, row: Option<Row>)
    requires i < |ts| && ts[i].kind == "inline"
    ensures Step(ts, i, row) == Ok(Outcome(ts, i + 1, Images(ts[i].children), row))
    ensures var bs := Images(ts[i].children); var cs := ts[i].children;
      |bs| <= |cs| &&
      (forall n :: 0 <= n < |bs| ==>
        bs[n].Image? && exists k :: 0 <= k < |cs| && ShownImage(cs[k]) && cs[k].src.value == bs[n].url) &&
      (forall k :: 0 <= k < |cs| && ShownImage(cs[k]) ==> Image(cs[k].src.value) in bs)
  {
    InlineDispatch(ts, i, row);
    ImagesMembers(ts[i].children);
  }

  /** The positions of the shown images among `cs`, in order. */
  function ShownIndices(cs: seq<Token>): seq<nat>
  {
    if cs == [] then []
    else ShownIndices(cs[..|cs| - 1]) + (if ShownImage(cs[|cs| - 1]) then [|cs| - 1] else [])
  }

  /** The `n`-th image block comes from the `n`-th shown position. */
  lemma {:induction false} ImagesPlaces(cs: seq<Token>)
    ensures var bs := Images(cs); var idx := ShownIndices(cs);
      |bs| == |idx| &&
      (forall n :: 0 <= n < |idx| ==>
        idx[n] < |cs| && ShownImage(cs[idx[n]]) && bs[n] == Image(cs[idx[n]].src.value))
    decreases |cs|
  {
    if cs != [] {
      var init := cs[..|cs| - 1];
      ImagesPlaces(init);
      var idx0, bs0 := ShownIndices(init), Images(init);
      var idx, bs := ShownIndices(cs), Images(cs);
      forall n | 0 <= n < |idx|
        ensures idx[n] < |cs| && ShownImage(cs[idx[n]]) && bs[n] == Image(cs[idx[n]].src.value)
      {
        if n < |idx0| {
          assert idx[n] == idx0[n] && bs[n] == bs0[n];
          assert cs[idx0[n]] == init[idx0[n]];
        }
      }
    }
  }

  /** The shown positions grow strictly. */
  lemma {:induction false} ShownIncreasing(cs: seq<Token>)
    ensures forall n :: 0 <= n < |ShownIndices(cs)| ==> ShownIndices(cs)[n] < |cs|
    ensures forall n, m :: 0 <= n < m < |ShownIndices(cs)| ==> ShownIndices(cs)[n] < ShownIndices(cs)[m]
    decreases |cs|
  {
    if cs != [] {
      var init := cs[..|cs| - 1];
      ShownIncreasing(init);
      var idx0, idx := ShownIndices(init), ShownIndices(cs);
      assert idx == idx0 + (if ShownImage(cs[|cs| - 1]) then [|cs| - 1] else []);
      forall n | 0 <= n < |idx| ensures idx[n] < |cs| {
        if n < |idx0| {
          assert idx[n] == idx0[n] && idx0[n] < |init|;
        } else {
          assert idx[n] == |cs| - 1;
        }
      }
      forall n, m | 0 <= n < m < |idx| ensures idx[n] < idx[m] {
        assert idx[n] == idx0[n] && idx0[n] < |init|;
        if m < |idx0| {
          assert idx[m] == idx0[m];
        } else {
          assert idx[m] == |cs| - 1;
        }
      }
    }
  }

  /** A position is listed exactly when its child is a shown image. */
  lemma {:induction false} ShownMembers(cs: seq<Token>)
    ensures var idx := ShownIndices(cs);
      forall k :: 0 <= k < |cs| ==> (k in idx <==> ShownImage(cs[k]))
    decreases |cs|
  {
    if cs != [] {
      var init := cs[..|cs| - 1];
      ShownMembers(init);
      ShownIncreasing(init);
      var idx0, idx := ShownIndices(init), ShownIndices(cs);
      forall k | 0 <= k < |cs| ensures k in idx <==> ShownImage(cs[k]) {
        if k < |init| {
          assert cs[k] == init[k];
          assert k != |cs| - 1;
          assert k in idx <==> k in idx0;
        }
      }
    }
  }

  /** The dispatch sends a bare `inline` token to the image branch. */
  lemma {:induction false} InlineDispatch(ts: seq<Token>, i: nat, row: Option<Row>)
    requires i < |ts| && ts[i].kind == "inline"
    ensures Step(ts, i, row) == Ok(Outcome(ts, i + 1, Images(ts[i].children), row))
  {
  }

  /**
   * `Images(cs)` is exactly `[Image(cs[k].src) for k in idx]`, where `idx` lists, in increasing
   * order, every position whose child is a shown image; so there are no more blocks than children,
   * each block is a shown image's and each shown image gives a block.
   */
  lemma {:induction false} ImagesSpec(cs: seq<Token>)
    ensures var bs := Images(cs);
      |bs| <= |cs| &&
      (forall n :: 0 <= n < |bs| ==>
        bs[n].Image? && exists k :: 0 <= k < |cs| && ShownImage(cs[k]) && cs[k].src.value == bs[n].url) &&
      (forall k :: 0 <= k < |cs| && ShownImage(cs[k]) ==> Image(cs[k].src.value) in bs)
    ensures var bs := Images(cs); var idx := ShownIndices(cs);
      |bs| == |idx| &&
      (forall n, m :: 0 <= n < m < |idx| ==> idx[n] < idx[m]) &&
      (forall n :: 0 <= n < |idx| ==>
        idx[n] < |cs| && ShownImage(cs[idx[n]]) && bs[n] == Image(cs[idx[n]].src.value)) &&
      (forall k :: 0 <= k < |cs| ==> (k in idx <==> ShownImage(cs[k])))
  {
    ImagesMembers(cs);
    ImagesPlaces(cs);
    ShownIncreasing(cs);
    ShownMembers(cs);
  }

  /** No more blocks than children; each block is a shown image's, and each shown image gives one. */
  lemma {:induction false} ImagesMembers(cs: seq<Token>)
    ensures var bs := Images(cs);
      |bs| <= |cs| &&
      (forall n :: 0 <= n < |bs| ==>
        bs[n].Image? && exists k :: 0 <= k < |cs| && ShownImage(cs[k]) && cs[k].src.value == bs[n].url) &&
      (forall k :: 0 <= k < |cs| && ShownImage(cs[k]) ==> Image(cs[k].src.value) in bs)
    decreases |cs|
  {
    if cs != [] {
      var init := cs[..|cs| - 1];
      var c := cs[|cs| - 1];
      ImagesMembers(init);
      var bs := Images(cs);
      var head := Images(init);
      assert bs == head + (if ShownImage(c) then [Image(c.src.value)] else []);
      forall n | 0 <= n < |bs|
        ensures bs[n].Image? && exists k :: 0 <= k < |cs| && ShownImage(cs[k]) && cs[k].src.value == bs[n].url
      {
        if n < |head| {
          var k :| 0 <= k < |init| && ShownImage(init[k]) && init[k].src.value == head[n].url;
          assert cs[k] == init[k];
        } else {
          assert cs[|cs| - 1] == c;
        }
      }
      forall k | 0 <= k < |cs| && ShownImage(cs[k])
        ensures Image(cs[k].src.value) in bs
      {
        if k < |init| {
          assert cs[k] == init[k];
        }
      }
    }
  }

  /** The result never exceeds 100 blocks, and a run that emits more is cut to exactly 100. */
  lemma {:induction false} CapExact(ts: seq<Token>)
    requires Run(ts, 0, None).Ok? && |Run(ts, 0, None).value| >= MaxBlocks
    ensures DocumentBlocks(ts) == Run(ts, 0, None).value[..MaxBlocks]
  {
  }

  /** A fence whose info string is only whitespace makes `split()[0]` raise, and the whole result is `[]`. */
  lemma BlankFenceInfoGivesNothing(content: string)
    ensures DocumentBlocks([Token("fence", [], content, " ", [], None, None)]) == []
  {
    var ts := [Token("fence", [], content, " ", [], None, None)];
    assert Blank(ts[0].info);
    BlankFenceRaises(ts, 0, None);
    assert Run(ts, 0, None) == Err(IndexError);
  }

  /** The dispatch of a fence whose info string is non-empty but all whitespace raises `IndexError`. */
  lemma {:induction false} BlankFenceRaises(ts: seq<Token>, i: nat, row: Option<Row>)
    requires i < |ts| && ts[i].kind == "fence" && ts[i].info != [] && Blank(ts[i].info)
    ensures Step(ts, i, row) == Err(IndexError)
  {
    CodeDispatch(ts, i, row);
    BlockLanguageCases(ts[i]);
  }

  /** The dispatch sends a `fence` or `code_block` token to the code branch. */
  lemma {:induction false} CodeDispatch(ts: seq<Token>, i: nat, row: Option<Row>)
    requires i < |ts| && (ts[i].kind == "fence" || ts[i].kind == "code_block")
    ensures Step(ts, i, row) == CodeTurn(ts, i, row)
  {
  }

  /** A cell before any `tr_open` uses an unbound `current_row`, and the whole result is `[]`. */
  lemma CellBeforeRowGivesNothing(cell: Token)
    requires cell.kind == "inline"
    ensures DocumentBlocks([Bare("table_open"), Bare("td_open"), cell, Bare("table_close")]) == []
  {
    var ts := [Bare("table_open"), Bare("td_open"), cell, Bare("table_close")];
    ScopeEndIsFound(ts, 0, 3, "table_close");
    var st := TableScan([], None, 0);
    assert TableToken(ts, 1, st) == Err(NameError);
    assert TableTokens(ts, 1, 3, st) == Err(NameError);
    assert Step(ts, 0, None) == Err(NameError);
  }

  /** The only `[` of `[!WARNING] ` is its first character. */
  lemma WarningPrefixChars()
    ensures forall k :: 0 < k < |"[!WARNING] "| ==> "[!WARNING] "[k] != '['
  {
  }

  /** `[!WARNING] ` followed by text without `[` is detected as a warning and nothing earlier. */
  lemma WarningDetected(body: string)
    requires forall k :: 0 <= k < |body| ==> body[k] != '['
    ensures DetectAlert("[!WARNING] " + body) == Some(Warning)
  {
    var raw := "[!WARNING] " + body;
    forall k | 0 < k < |raw| ensures raw[k] != '[' {
      if k >= 11 {
        assert raw[k] == body[k - 11];
      } else {
        WarningPrefixChars();
        assert raw[k] == "[!WARNING] "[k];
      }
    }
    assert raw[2] == 'W';
    AbsentByFirstChar(raw, "[!NOTE]");
    AbsentByFirstChar(raw, "[!TIP]");
    AbsentByFirstChar(raw, "[!IMPORTANT]");
    assert OccursAt(raw, "[!WARNING]", 0);
  }

  /** Replacing a leading marker in text that holds no other `[` leaves the rest. */
  lemma ReplaceLeadingMarker(tag: string, tail: string)
    requires tag != [] && tag[0] == '['
    requires forall k :: 0 <= k < |tail| ==> tail[k] != '['
    ensures ReplaceAll(tag + tail, tag, []) == tail
  {
    var raw := tag + tail;
    if tail != [] {
      AbsentByFirstChar(tail, tag);
    } else {
      assert !Contains(tail, tag);
    }
    ReplaceAbsent(tail, tag, []);
    assert raw[..|tag|] == tag && raw[|tag|..] == tail;
  }

  /** Removing the marker from `[!WARNING] ` followed by trimmed text without `[` leaves that text. */
  lemma WarningStripped(body: string)
    requires body != [] && !IsSpace(body[0]) && !IsSpace(body[|body| - 1])
    requires forall k :: 0 <= k < |body| ==> body[k] != '['
    ensures StripTag([TextToken("[!WARNING] " + body)], Marker(Warning)) == [TextToken(body)]
  {
    var tag := Marker(Warning);
    var tail := " " + body;
    LeadingSpace(body);
    assert "[!WARNING] " + body == tag + tail;
    ReplaceLeadingMarker(tag, tail);
    LeadingMarkerChild(tag, tail, body);
    assert StripTag([TextToken(tag + tail)], tag)[0] == TextToken(body);
  }

  /** A text child that starts with the marker becomes what is left once the marker is removed and the rest stripped. */
  lemma LeadingMarkerChild(tag: string, tail: string, body: string)
    requires tag != [] && ReplaceAll(tag + tail, tag, []) == tail && Strip(tail) == body
    ensures StripChild(TextToken(tag + tail), tag) == TextToken(body)
  {
    ContainsAt(tag + tail, tag, 0);
  }

  /** One space in front of trimmed text without `[`: still no `[`, and stripping removes the space. */
  lemma LeadingSpace(body: string)
    requires body != [] && !IsSpace(body[0]) && !IsSpace(body[|body| - 1])
    requires forall k :: 0 <= k < |body| ==> body[k] != '['
    ensures forall k :: 0 <= k < |" " + body| ==> (" " + body)[k] != '['
    ensures Strip(" " + body) == body
  {
    var tail := " " + body;
    forall k | 0 <= k < |tail| ensures tail[k] != '[' {
      if k > 0 { assert tail[k] == body[k - 1]; }
    }
    assert tail[1..] == body;
    assert TrimLeft(tail) == body;
    StripUnchanged(body);
  }

  /**
   * A blockquote whose paragraph reads `[!WARNING] ` followed by plain text becomes a warning callout
   * (warning sign, orange background) whose only span is that text, with the marker gone.
   */
  lemma AlertStripping(body: string)
    requires body != [] && !IsSpace(body[0]) && !IsSpace(body[|body| - 1])
    requires forall k :: 0 <= k < |body| ==> body[k] != '['
    ensures var raw := "[!WARNING] " + body;
      var ts := [Bare("blockquote_open"), Bare("paragraph_open"), Inline(raw, [TextToken(raw)]),
                 Bare("paragraph_close"), Bare("blockquote_close")];
      BlockquoteTurn(ts, 0, None).emitted ==
        [Callout([Span(body, None, Plain)], "\U{26a0}\U{fe0f}", "orange_background")] &&
      BlockquoteTurn(ts, 0, None).next == 5
  {
    var raw := "[!WARNING] " + body;
    var ts := [Bare("blockquote_open"), Bare("paragraph_open"), Inline(raw, [TextToken(raw)]),
               Bare("paragraph_close"), Bare("blockquote_close")];
    assert ScopeEnd(ts, 0, 4, "blockquote_close");
    assert FirstInlineAt(ts, 0, 4, 2);
    WarningCallout(ts, body);
  }

  /** The warning callout of a blockquote whose first inline, before its close, is `[!WARNING] ` and text. */
  lemma {:induction false} WarningCallout(ts: seq<Token>, body: string)
    requires body != [] && !IsSpace(body[0]) && !IsSpace(body[|body| - 1])
    requires forall k :: 0 <= k < |body| ==> body[k] != '['
    requires 4 < |ts| && ScopeEnd(ts, 0, 4, "blockquote_close") && FirstInlineAt(ts, 0, 4, 2)
    requires ts[2] == Inline("[!WARNING] " + body, [TextToken("[!WARNING] " + body)])
    ensures BlockquoteTurn(ts, 0, None).emitted ==
        [Callout([Span(body, None, Plain)], "\U{26a0}\U{fe0f}", "orange_background")]
    ensures BlockquoteTurn(ts, 0, None).next == 5
  {
    ScopeEndIsFound(ts, 0, 4, "blockquote_close");
    FirstInlineIsFound(ts, 0, 4);
    WarningQuote(body);
  }

  /** The inline `[!WARNING] ` and text, quoted, gives the warning callout of that text alone. */
  lemma WarningQuote(body: string)
    requires body != [] && !IsSpace(body[0]) && !IsSpace(body[|body| - 1])
    requires forall k :: 0 <= k < |body| ==> body[k] != '['
    ensures var raw := "[!WARNING] " + body;
      QuoteBlock(Inline(raw, [TextToken(raw)])).1 ==
        Callout([Span(body, None, Plain)], "\U{26a0}\U{fe0f}", "orange_background")
  {
    var raw := "[!WARNING] " + body;
    WarningDetected(body);
    AlertQuote(Inline(raw, [TextToken(raw)]), Warning);
    WarningStripped(body);
    PlainTextSpan(body);
    WarningStyle();
  }

  /** A lone text token is one plain span without a link. */
  lemma {:induction false} PlainTextSpan(text: string)
    ensures Spans([TextToken(text)]) == [Span(text, None, Plain)]
  {
    assert [] + [TextToken(text)] == [TextToken(text)];
    SpansSnoc([], TextToken(text));
  }

  /** The icon and colour of a warning callout. */
  lemma WarningStyle()
    ensures Emoji(Warning) == "\U{26a0}\U{fe0f}" && Color(Warning) == "orange_background"
  {
  }

  /** An inline whose raw text is detected as alert `k` gives the callout of `k` built from its children without the marker. */
  lemma {:induction false} AlertQuote(t: Token, k: AlertKind)
    requires DetectAlert(t.content) == Some(k)
    ensures QuoteBlock(t).1 == Callout(Spans(StripTag(t.children, Marker(k))), Emoji(k), Color(k))
  {
  }
}
