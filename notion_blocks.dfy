/**
 * `parse_md_to_notion_blocks`: a cursor over the flat markdown-it token list that dispatches on the
 * token under the cursor, emits Notion blocks, and moves the cursor by a branch-specific amount.
 * The specification functions below describe one step and the whole run; the method
 * `ParseMdToNotionBlocks` is the loop as the source writes it, proved equal to them.
 */
module NotionBlocks {
  import opened Wrappers
  import opened Text
  import opened Tokens
  import opened RichText
  import opened CodeLanguage
  import opened Alerts

  /** A table cell is a rich-text list; a row is a list of cells. */
  type Cell = seq<Span>
  type Row = seq<Cell>

  /** The Notion blocks the converter produces. */
  datatype Block =
    | Heading(level: nat, richText: seq<Span>)
    | Paragraph(richText: seq<Span>)
    | BulletedListItem(richText: seq<Span>)
    | Quote(richText: seq<Span>)
    | Callout(richText: seq<Span>, emoji: string, color: string)
    | Table(tableWidth: nat, hasColumnHeader: bool, hasRowHeader: bool, rows: seq<Row>)
    | Code(text: string, language: string)
    | Image(url: string)

  /** The most blocks one call returns. */
  const MaxBlocks := 100

  // ---------------------------------------------------------------------------------------------
  // Scanning helpers

  /** The first index at or after `from` whose token has type `kind`. */
  function FindKind(ts: seq<Token>, from: nat, kind: string): (r: Option<nat>)
    requires from <= |ts|
    ensures r.Some? ==> from <= r.value < |ts| && ts[r.value].kind == kind
    ensures forall m :: from <= m < (if r.Some? then r.value else |ts|) ==> ts[m].kind != kind
    decreases |ts| - from
  {
    if from == |ts| then None
    else if ts[from].kind == kind then Some(from)
    else FindKind(ts, from + 1, kind)
  }

  /** The first `inline` token in `ts[from..stop]`. */
  function FirstInline(ts: seq<Token>, from: nat, stop: nat): (r: Option<nat>)
    requires from <= stop <= |ts|
    ensures r.Some? ==> from <= r.value < stop && ts[r.value].kind == "inline"
    ensures forall m :: from <= m < (if r.Some? then r.value else stop) ==> ts[m].kind != "inline"
    decreases stop - from
  {
    if from == stop then None
    else if ts[from].kind == "inline" then Some(from)
    else FirstInline(ts, from + 1, stop)
  }

  /** The first token of type `kind` at or after `from` is at `j` when there is none before `j`. */
  lemma {:induction false} FindKindAt(ts: seq<Token>, from: nat, j: nat, kind: string)
    requires from <= j <= |ts| && (j < |ts| ==> ts[j].kind == kind)
    requires forall m :: from <= m < j ==> ts[m].kind != kind
    ensures FindKind(ts, from, kind) == if j < |ts| then Some(j) else None
  {
  }

  /** Moving the end of the search one token on finds the same `inline`, or that token when it is the first. */
  lemma {:induction false} FirstInlineExtend(ts: seq<Token>, from: nat, stop: nat)
    requires from <= stop < |ts|
    ensures FirstInline(ts, from, stop + 1) ==
      if FirstInline(ts, from, stop).Some? then FirstInline(ts, from, stop)
      else if ts[stop].kind == "inline" then Some(stop) else None
  {
  }

  // ---------------------------------------------------------------------------------------------
  // Headings

  /** `min(int(tag[1]), 3)`: `IndexError` for a tag shorter than two, `ValueError` for a non-digit. */
  function HeadingLevel(tag: string): (r: Result<nat, Failure>)
    ensures r.Ok? ==> r.value <= 3
  {
    if |tag| < 2 then Err(IndexError)
    else if !IsDigit(tag[1]) then Err(ValueError)
    else
      var d := tag[1] as int - '0' as int;
      Ok(if d < 3 then d else 3)
  }

  // ---------------------------------------------------------------------------------------------
  // Blockquotes and alerts

  /** A `text` child that contains `tag` loses every occurrence of it and is then stripped. */
  function StripChild(c: Token, tag: string): Token
    requires tag != []
  {
    if c.kind == "text" && Contains(c.content, tag) then c.(content := Strip(ReplaceAll(c.content, tag, []))) else c
  }

  /** The children of a quoted inline after the marker is removed from them. */
  function StripTag(children: seq<Token>, tag: string): seq<Token>
    requires tag != []
  {
    seq(|children|, n requires 0 <= n < |children| => StripChild(children[n], tag))
  }

  /** The block an inline quoted by a blockquote gives, and the inline with its children updated. */
  function QuoteBlock(t: Token): (Token, Block)
  {
    match DetectAlert(t.content)
    case Some(k) =>
      var t' := t.(children := StripTag(t.children, Marker(k)));
      (t', Callout(Spans(t'.children), Emoji(k), Color(k)))
    case None => (t, Quote(Spans(t.children)))
  }

  // ---------------------------------------------------------------------------------------------
  // Tables

  /**
   * The state of the table scan. `current` is `current_row` (`None` while it is unbound); the rows
   * collected so far are `done` followed by `shared` entries that are the very list `current`
   * still names, so a cell appended to `current` shows up in each of them.
   */
  datatype TableScan = TableScan(done: seq<Row>, current: Option<Row>, shared: nat)

  function Repeat(r: Row, n: nat): (rs: seq<Row>)
    ensures |rs| == n && forall m :: 0 <= m < n ==> rs[m] == r
  {
    if n == 0 then [] else Repeat(r, n - 1) + [r]
  }

  /** The list `rows` as the source holds it. */
  function Collected(st: TableScan): seq<Row>
  {
    st.done + (if st.current.Some? then Repeat(st.current.value, st.shared) else [])
  }

  /** The effect of the token at `k` inside a table on the scan. */
  function TableToken(ts: seq<Token>, k: nat, st: TableScan): Result<TableScan, Failure>
    requires k < |ts|
  {
    var t := ts[k];
    if t.kind == "tr_open" then Ok(TableScan(Collected(st), Some([]), 0))
    else if t.kind == "tr_close" then
      if st.current.None? then Err(NameError) else Ok(st.(shared := st.shared + 1))
    else if t.kind == "th_open" || t.kind == "td_open" then
      if k + 1 < |ts| && ts[k + 1].kind == "inline" then
        if st.current.None? then Err(NameError)
        else Ok(st.(current := Some(st.current.value + [Spans(ts[k + 1].children)])))
      else Ok(st)
    else Ok(st)
  }

  /** The scan of the tokens `ts[k..end]`. */
  function TableTokens(ts: seq<Token>, k: nat, end: nat, st: TableScan): Result<TableScan, Failure>
    requires k <= end <= |ts|
    decreases end - k
  {
    if k == end then Ok(st)
    else
      match TableToken(ts, k, st)
      case Err(e) => Err(e)
      case Ok(st') => TableTokens(ts, k + 1, end, st')
  }

  /** `max(len(r) for r in rows)`. */
  function MaxLen(rows: seq<Row>): (m: nat)
    ensures forall n :: 0 <= n < |rows| ==> |rows[n]| <= m
    ensures rows == [] ==> m == 0
    ensures rows != [] ==> exists n :: 0 <= n < |rows| && |rows[n]| == m
  {
    if rows == [] then 0
    else
      var m := MaxLen(rows[1..]);
      assert forall n :: 1 <= n < |rows| ==> rows[n] == rows[1..][n - 1];
      if |rows[0]| >= m then |rows[0]| else m
  }

  /** The block of a non-empty list of rows. */
  function TableBlock(rows: seq<Row>): Block
  {
    Table(MaxLen(rows), true, false, rows)
  }

  // ---------------------------------------------------------------------------------------------
  // Images

  /** The image blocks of the `image` children of a bare `inline` whose `src` is truthy. */
  function Images(children: seq<Token>): seq<Block>
  {
    if children == [] then []
    else
      var c := children[|children| - 1];
      Images(children[..|children| - 1])
      + (if c.kind == "image" && c.src.Some? && c.src.value != [] then [Image(c.src.value)] else [])
  }

  // ---------------------------------------------------------------------------------------------
  // One turn of the loop, branch by branch

  /** What one turn of the loop leaves: the token list, the cursor, the blocks it appended, `current_row`. */
  datatype Outcome = Outcome(tokens: seq<Token>, next: nat, emitted: seq<Block>, row: Option<Row>)

  /** `heading_open`: a heading of level `min(int(tag[1]), 3)` when an `inline` follows; the cursor moves by 3. */
  function HeadingTurn(ts: seq<Token>, i: nat, row: Option<Row>): Result<Outcome, Failure>
    requires i < |ts|
  {
    match HeadingLevel(ts[i].tag)
    case Err(e) => Err(e)
    case Ok(level) =>
      var out := if i + 1 < |ts| && ts[i + 1].kind == "inline"
                 then [Heading(level, Spans(ts[i + 1].children))] else [];
      Ok(Outcome(ts, i + 3, out, row))
  }

  /** `paragraph_open`: a paragraph when the following `inline` has non-blank content; the cursor moves by 3. */
  function ParagraphTurn(ts: seq<Token>, i: nat, row: Option<Row>): Outcome
    requires i < |ts|
  {
    var out := if i + 1 < |ts| && ts[i + 1].kind == "inline" && Strip(ts[i + 1].content) != []
               then [Paragraph(Spans(ts[i + 1].children))] else [];
    Outcome(ts, i + 3, out, row)
  }

  /**
   * `list_item_open`: a bulleted item from the first `inline` before the first `list_item_close`;
   * the cursor moves just past that close, or by 1 when there is none.
   */
  function ListItemTurn(ts: seq<Token>, i: nat, row: Option<Row>): Outcome
    requires i < |ts|
  {
    var close := FindKind(ts, i + 1, "list_item_close");
    var first := FirstInline(ts, i + 1, if close.Some? then close.value else |ts|);
    var out := if first.Some? then [BulletedListItem(Spans(ts[first.value].children))] else [];
    Outcome(ts, if close.Some? then close.value + 1 else i + 1, out, row)
  }

  /**
   * `blockquote_open`: a callout or a quote from the first `inline` before the first
   * `blockquote_close`, whose children lose the alert marker in place; the cursor moves as for a list item.
   */
  function BlockquoteTurn(ts: seq<Token>, i: nat, row: Option<Row>): Outcome
    requires i < |ts|
  {
    var close := FindKind(ts, i + 1, "blockquote_close");
    var first := FirstInline(ts, i + 1, if close.Some? then close.value else |ts|);
    var next := if close.Some? then close.value + 1 else i + 1;
    if first.Some? then
      var (t', b) := QuoteBlock(ts[first.value]);
      Outcome(ts[first.value := t'], next, [b], row)
    else Outcome(ts, next, [], row)
  }

  /**
   * `table_open`: the rows collected between it and the first `table_close` (none when there is no
   * close), as a table block when there is at least one; the cursor moves just past the close, or by 1.
   */
  function TableTurn(ts: seq<Token>, i: nat, row: Option<Row>): Result<Outcome, Failure>
    requires i < |ts|
  {
    var close := FindKind(ts, i + 1, "table_close");
    var end := if close.Some? then close.value else i;
    var scan := if end <= i then Ok(TableScan([], row, 0)) else TableTokens(ts, i + 1, end, TableScan([], row, 0));
    match scan
    case Err(e) => Err(e)
    case Ok(st) =>
      var rows := Collected(st);
      Ok(Outcome(ts, end + 1, if rows != [] then [TableBlock(rows)] else [], st.current))
  }

  /** `fence` / `code_block`: a code block with the normalised language and the first 2000 characters. */
  function CodeTurn(ts: seq<Token>, i: nat, row: Option<Row>): Result<Outcome, Failure>
    requires i < |ts|
  {
    match BlockLanguage(ts[i])
    case Err(e) => Err(e)
    case Ok(lang) => Ok(Outcome(ts, i + 1, [Code(CodeText(ts[i].content), lang)], row))
  }

  /** One turn of the loop with the cursor at `i`: the branch of the token under the cursor. */
  function Step(ts: seq<Token>, i: nat, row: Option<Row>): (r: Result<Outcome, Failure>)
    requires i < |ts|
    ensures r.Ok? ==> |r.value.tokens| == |ts| && r.value.next > i
  {
    var kind := ts[i].kind;
    if kind == "heading_open" then HeadingTurn(ts, i, row)
    else if kind == "paragraph_open" then Ok(ParagraphTurn(ts, i, row))
    else if kind == "bullet_list_open" then Ok(Outcome(ts, i + 1, [], row))
    else if kind == "list_item_open" then Ok(ListItemTurn(ts, i, row))
    else if kind == "blockquote_open" then Ok(BlockquoteTurn(ts, i, row))
    else if kind == "table_open" then TableTurn(ts, i, row)
    else if kind == "fence" || kind == "code_block" then CodeTurn(ts, i, row)
    else if kind == "inline" then Ok(Outcome(ts, i + 1, Images(ts[i].children), row))
    else Ok(Outcome(ts, i + 1, [], row))
  }

  // ---------------------------------------------------------------------------------------------
  // The whole run

  /** `bs` in front of the blocks of a result; an exception stays an exception. */
  function Prepend(bs: seq<Block>, r: Result<seq<Block>, Failure>): Result<seq<Block>, Failure>
  {
    match r
    case Ok(rest) => Ok(bs + rest)
    case Err(e) => Err(e)
  }

  /** All blocks the loop appends from cursor `i` on, or the exception it raises. */
  function Run(ts: seq<Token>, i: nat, row: Option<Row>): Result<seq<Block>, Failure>
    decreases |ts| - i
  {
    if i >= |ts| then Ok([])
    else
      match Step(ts, i, row)
      case Err(e) => Err(e)
      case Ok(o) => Prepend(o.emitted, Run(o.tokens, o.next, o.row))
  }

  /** `blocks[:100]`. */
  function Cap(all: seq<Block>): (r: seq<Block>)
    ensures |r| <= MaxBlocks && |r| <= |all| && r == all[..|r|]
    ensures |r| == |all| || |r| == MaxBlocks
  {
    if |all| <= MaxBlocks then all else all[..MaxBlocks]
  }

  /** The result of `parse_md_to_notion_blocks`: the first 100 blocks, or `[]` after any exception. */
  function DocumentBlocks(ts: seq<Token>): (r: seq<Block>)
    ensures |r| <= MaxBlocks
    ensures Run(ts, 0, None).Err? ==> r == []
    ensures Run(ts, 0, None).Ok? ==>
      |r| <= |Run(ts, 0, None).value| && r == Run(ts, 0, None).value[..|r|] &&
      (|r| == |Run(ts, 0, None).value| || |r| == MaxBlocks)
  {
    var res := Run(ts, 0, None);
    if res.Err? then [] else Cap(res.value)
  }

  // ---------------------------------------------------------------------------------------------
  // The loop as the source writes it

  /** One turn of the run: the blocks of the turn at `i` come before those of the rest. */
  lemma RunStep(ts: seq<Token>, i: nat, row: Option<Row>)
    requires i < |ts|
    ensures Step(ts, i, row).Err? ==> Run(ts, i, row) == Err(Step(ts, i, row).error)
    ensures Step(ts, i, row).Ok? ==>
      var o := Step(ts, i, row).value;
      Run(ts, i, row) == Prepend(o.emitted, Run(o.tokens, o.next, o.row))
  {
  }

  /** `a + (b + c)` in result form. */
  lemma PrependPrepend(a: seq<Block>, b: seq<Block>, r: Result<seq<Block>, Failure>)
    ensures Prepend(a, Prepend(b, r)) == Prepend(a + b, r)
  {
    if r.Ok? {
      assert a + (b + r.value) == (a + b) + r.value;
    }
  }

  /** The `list_item_open` branch: the inner `for j` loop with its `break` and `found_text` flag. */
  method ListItemBranch(tokens: seq<Token>, i: nat, row: Option<Row>) returns (o: Outcome)
    requires i < |tokens|
    ensures o == ListItemTurn(tokens, i, row)
  {
    var emitted: seq<Block> := [];
    var foundText := false;
    var skip := 1;
    var j := i + 1;
    while j < |tokens|
      invariant i + 1 <= j <= |tokens|
      invariant forall m :: i + 1 <= m < j ==> tokens[m].kind != "list_item_close"
      invariant foundText == FirstInline(tokens, i + 1, j).Some?
      invariant emitted == if foundText then [BulletedListItem(Spans(tokens[FirstInline(tokens, i + 1, j).value].children))] else []
      invariant skip == 1
    {
      if tokens[j].kind == "list_item_close" {
        skip := j - i + 1;
        break;
      }
      if !foundText && tokens[j].kind == "inline" {
        var richText := BuildRichText(tokens[j].children);
        emitted := emitted + [BulletedListItem(richText)];
        foundText := true;
      }
      j := j + 1;
    }
    ListItemTurnAt(tokens, i, row, j);
    o := Outcome(tokens, i + skip, emitted, row);
  }

  /** `ListItemTurn` once the position `c` of the closing token (or the end) is known. */
  lemma {:induction false} ListItemTurnAt(ts: seq<Token>, i: nat, row: Option<Row>, c: nat)
    requires i + 1 <= c <= |ts| && (c < |ts| ==> ts[c].kind == "list_item_close")
    requires forall m :: i + 1 <= m < c ==> ts[m].kind != "list_item_close"
    ensures var first := FirstInline(ts, i + 1, c);
      ListItemTurn(ts, i, row) ==
        Outcome(ts, if c < |ts| then c + 1 else i + 1,
                if first.Some? then [BulletedListItem(Spans(ts[first.value].children))] else [], row)
  {
    FindKindAt(ts, i + 1, c, "list_item_close");
    var close := FindKind(ts, i + 1, "list_item_close");
    assert (if close.Some? then close.value else |ts|) == c;
  }

  /** Lines 111-112 for one child: a `text` child that contains `tag` has it removed and is stripped. */
  method StripChildContent(child: Token, tag: string) returns (c: Token)
    requires tag != []
    ensures c == StripChild(child, tag)
  {
    c := child;
    if c.kind == "text" && Contains(c.content, tag) {
      var cleaned := ReplaceAll(c.content, tag, []);
      cleaned := Strip(cleaned);
      c := c.(content := cleaned);
    }
  }

  /** Lines 110-112: each `text` child that contains `tag` has it removed and is stripped, in place. */
  method StripMarker(children: seq<Token>, tag: string) returns (updated: seq<Token>)
    requires tag != []
    ensures updated == StripTag(children, tag)
  {
    updated := children;
    var n := 0;
    while n < |updated|
      invariant 0 <= n <= |updated| == |children|
      invariant forall m :: 0 <= m < n ==> updated[m] == StripChild(children[m], tag)
      invariant forall m :: n <= m < |updated| ==> updated[m] == children[m]
    {
      var child := StripChildContent(updated[n], tag);
      updated := updated[n := child];
      n := n + 1;
    }
  }

  /**
   * Lines 98-118 for the first quoted `inline`: the alert chain, the in-place marker removal, and
   * the callout or quote block built from the (updated) children.
   */
  method QuoteInline(t: Token) returns (updated: Token, block: Block)
    ensures (updated, block) == QuoteBlock(t)
  {
    var raw := t.content;
    var calloutType: Option<AlertKind> := None;
    var emoji := "\U{1f4a1}";
    var color := "gray_background";
    if Contains(raw, "[!NOTE]") {
      calloutType, emoji, color := Some(Note), "\U{2139}\U{fe0f}", "blue_background";
    } else if Contains(raw, "[!TIP]") {
      calloutType, emoji, color := Some(Tip), "\U{1f4a1}", "green_background";
    } else if Contains(raw, "[!IMPORTANT]") {
      calloutType, emoji, color := Some(Important), "\U{1f525}", "purple_background";
    } else if Contains(raw, "[!WARNING]") {
      calloutType, emoji, color := Some(Warning), "\U{26a0}\U{fe0f}", "orange_background";
    } else if Contains(raw, "[!CAUTION]") {
      calloutType, emoji, color := Some(Caution), "\U{1f6d1}", "red_background";
    }
    updated := t;
    if calloutType.Some? {
      var tag := "[!" + Name(calloutType.value) + "]";
      var children := StripMarker(t.children, tag);
      updated := t.(children := children);
      var richText := BuildRichText(updated.children);
      block := Callout(richText, emoji, color);
    } else {
      var richText := BuildRichText(t.children);
      block := Quote(richText);
    }
  }

  /** The `blockquote_open` branch: the inner loop with its `break` and `found_text` flag. */
  method BlockquoteBranch(tokens: seq<Token>, i: nat, row: Option<Row>) returns (o: Outcome)
    requires i < |tokens|
    ensures o == BlockquoteTurn(tokens, i, row)
  {
    var toks := tokens;
    var emitted: seq<Block> := [];
    var foundText := false;
    var skip := 1;
    var j := i + 1;
    ghost var first: Option<nat> := None;
    while j < |toks|
      invariant |toks| == |tokens| && i + 1 <= j <= |tokens|
      invariant forall m :: j <= m < |toks| ==> toks[m] == tokens[m]
      invariant forall m :: i + 1 <= m < j ==> tokens[m].kind != "blockquote_close"
      invariant first == FirstInline(tokens, i + 1, j) && foundText == first.Some?
      invariant !foundText ==> toks == tokens && emitted == []
      invariant foundText ==>
        toks == tokens[first.value := QuoteBlock(tokens[first.value]).0] &&
        emitted == [QuoteBlock(tokens[first.value]).1]
      invariant skip == 1
    {
      if toks[j].kind == "blockquote_close" {
        skip := j - i + 1;
        break;
      }
      FirstInlineExtend(tokens, i + 1, j);
      if !foundText && toks[j].kind == "inline" {
        var updated, block := QuoteInline(toks[j]);
        toks := toks[j := updated];
        emitted := emitted + [block];
        foundText := true;
        first := Some(j);
      }
      j := j + 1;
    }
    BlockquoteTurnAt(tokens, i, row, j);
    o := Outcome(toks, i + skip, emitted, row);
  }

  /** `BlockquoteTurn` once the position `c` of the closing token (or the end) is known. */
  lemma {:induction false} BlockquoteTurnAt(ts: seq<Token>, i: nat, row: Option<Row>, c: nat)
    requires i + 1 <= c <= |ts| && (c < |ts| ==> ts[c].kind == "blockquote_close")
    requires forall m :: i + 1 <= m < c ==> ts[m].kind != "blockquote_close"
    ensures var first := FirstInline(ts, i + 1, c); var next := if c < |ts| then c + 1 else i + 1;
      BlockquoteTurn(ts, i, row) ==
        if first.Some? then Outcome(ts[first.value := QuoteBlock(ts[first.value]).0], next, [QuoteBlock(ts[first.value]).1], row)
        else Outcome(ts, next, [], row)
  {
    FindKindAt(ts, i + 1, c, "blockquote_close");
    var close := FindKind(ts, i + 1, "blockquote_close");
    assert (if close.Some? then close.value else |ts|) == c;
  }

  /** The `table_open` branch: the search for `table_close`, then the row/cell loop up to it. */
  method TableBranch(tokens: seq<Token>, i: nat, row: Option<Row>) returns (r: Result<Outcome, Failure>)
    requires i < |tokens|
    ensures r == TableTurn(tokens, i, row)
  {
    var endIdx := i;
    var k := i + 1;
    while k < |tokens|
      invariant i + 1 <= k <= |tokens| && endIdx == i
      invariant forall m :: i + 1 <= m < k ==> tokens[m].kind != "table_close"
    {
      if tokens[k].kind == "table_close" {
        endIdx := k;
        break;
      }
      k := k + 1;
    }
    assert endIdx == (var close := FindKind(tokens, i + 1, "table_close"); if close.Some? then close.value else i);
    var scan: Result<TableScan, Failure> := Ok(TableScan([], row, 0));
    if endIdx > i {
      scan := TableRows(tokens, i + 1, endIdx, row);
    }
    match scan
    case Err(e) =>
      r := Err(e);
    case Ok(st) =>
      var rows := Collected(st);
      var emitted: seq<Block> := [];
      if rows != [] {
        emitted := [Table(MaxLen(rows), true, false, rows)];
      }
      r := Ok(Outcome(tokens, endIdx + 1, emitted, st.current));
  }

  /**
   * The row/cell loop over `tokens[from..end]` with `current_row` starting at `row`: the rows it
   * collects, the row still open and how many collected rows share it, or the `NameError` a row
   * end or a cell before any `tr_open` raises.
   */
  method TableRows(tokens: seq<Token>, from: nat, end: nat, row: Option<Row>) returns (r: Result<TableScan, Failure>)
    requires from <= end <= |tokens|
    ensures r == TableTokens(tokens, from, end, TableScan([], row, 0))
  {
    var done: seq<Row> := [];
    var currentRow := row;
    var shared := 0;
    var k := from;
    while k < end
      invariant from <= k <= end
      invariant TableTokens(tokens, from, end, TableScan([], row, 0)) == TableTokens(tokens, k, end, TableScan(done, currentRow, shared))
      decreases end - k
    {
      ghost var st := TableScan(done, currentRow, shared);
      assert TableTokens(tokens, k, end, st) ==
        match TableToken(tokens, k, st) case Err(e) => Err(e) case Ok(st') => TableTokens(tokens, k + 1, end, st');
      var t := tokens[k];
      if t.kind == "tr_open" {
        done, currentRow, shared := Collected(TableScan(done, currentRow, shared)), Some([]), 0;
      } else if t.kind == "tr_close" {
        if currentRow.None? {
          assert TableToken(tokens, k, st) == Err(NameError);
          return Err(NameError);
        }
        shared := shared + 1;
      } else if t.kind == "th_open" || t.kind == "td_open" {
        if k + 1 < |tokens| && tokens[k + 1].kind == "inline" {
          if currentRow.None? {
            assert TableToken(tokens, k, st) == Err(NameError);
            return Err(NameError);
          }
          var cell := BuildRichText(tokens[k + 1].children);
          currentRow := Some(currentRow.value + [cell]);
        }
      }
      k := k + 1;
    }
    r := Ok(TableScan(done, currentRow, shared));
  }

  /** The `fence` / `code_block` branch. */
  method CodeBranch(tokens: seq<Token>, i: nat, row: Option<Row>) returns (r: Result<Outcome, Failure>)
    requires i < |tokens|
    ensures r == CodeTurn(tokens, i, row)
  {
    var token := tokens[i];
    var lang := PlainText;
    if token.kind == "fence" && token.info != [] {
      var words := Words(token.info);
      if words == [] {
        return Err(IndexError);
      }
      lang := Lower(words[0]);
    }
    var code := token.content;
    var cleanLang := if lang in AliasMap then AliasMap[lang] else lang;
    if cleanLang !in ValidLangs {
      cleanLang := PlainText;
    }
    var text := if |code| <= 2000 then code else code[..2000];
    r := Ok(Outcome(tokens, i + 1, [Code(text, cleanLang)], row));
  }

  /** One turn of the `while` loop: the `if` / `elif` chain on the token under the cursor. */
  method Dispatch(tokens: seq<Token>, i: nat, row: Option<Row>) returns (r: Result<Outcome, Failure>)
    requires i < |tokens|
    ensures r == Step(tokens, i, row)
  {
    var token := tokens[i];
    if token.kind == "heading_open" {
      var level := HeadingLevel(token.tag);
      if level.Err? {
        return Err(level.error);
      }
      var emitted: seq<Block> := [];
      if i + 1 < |tokens| && tokens[i + 1].kind == "inline" {
        var richText := BuildRichText(tokens[i + 1].children);
        emitted := [Heading(level.value, richText)];
      }
      r := Ok(Outcome(tokens, i + 3, emitted, row));
    } else if token.kind == "paragraph_open" {
      var emitted: seq<Block> := [];
      if i + 1 < |tokens| && tokens[i + 1].kind == "inline" {
        var inline := tokens[i + 1];
        if inline.content != [] && Strip(inline.content) != [] {
          var richText := BuildRichText(inline.children);
          emitted := [Paragraph(richText)];
        }
      }
      r := Ok(Outcome(tokens, i + 3, emitted, row));
    } else if token.kind == "bullet_list_open" {
      r := Ok(Outcome(tokens, i + 1, [], row));
    } else if token.kind == "list_item_open" {
      var o := ListItemBranch(tokens, i, row);
      r := Ok(o);
    } else if token.kind == "blockquote_open" {
      var o := BlockquoteBranch(tokens, i, row);
      r := Ok(o);
    } else if token.kind == "table_open" {
      r := TableBranch(tokens, i, row);
    } else if token.kind == "fence" || token.kind == "code_block" {
      r := CodeBranch(tokens, i, row);
    } else if token.kind == "inline" {
      var emitted: seq<Block> := [];
      var n := 0;
      while n < |token.children|
        invariant 0 <= n <= |token.children|
        invariant emitted == Images(token.children[..n])
      {
        var child := token.children[n];
        assert token.children[..n + 1][..n] == token.children[..n];
        if child.kind == "image" {
          var url := child.src;
          if url.Some? && url.value != [] {
            emitted := emitted + [Image(url.value)];
          }
        }
        n := n + 1;
      }
      assert token.children[..n] == token.children;
      r := Ok(Outcome(tokens, i + 1, emitted, row));
    } else {
      r := Ok(Outcome(tokens, i + 1, [], row));
    }
  }

  /**
   * `parse_md_to_notion_blocks` on an already tokenised document: the cursor loop, then
   * `blocks[:100]`; an exception raised by any turn makes the result `[]`.
   */
  method ParseMdToNotionBlocks(tokens: seq<Token>) returns (result: seq<Block>)
    ensures result == DocumentBlocks(tokens)
  {
    var toks := tokens;
    var blocks: seq<Block> := [];
    var currentRow: Option<Row> := None;
    var i: nat := 0;
    assert Run(tokens, 0, None).Ok? ==> [] + Run(tokens, 0, None).value == Run(tokens, 0, None).value;
    while i < |toks|
      invariant Run(tokens, 0, None) == Prepend(blocks, Run(toks, i, currentRow))
      decreases |toks| - i
    {
      var r := Dispatch(toks, i, currentRow);
      RunStep(toks, i, currentRow);
      if r.Err? {
        assert Run(tokens, 0, None).Err?;
        return [];
      }
      var o := r.value;
      PrependPrepend(blocks, o.emitted, Run(o.tokens, o.next, o.row));
      blocks := blocks + o.emitted;
      toks, i, currentRow := o.tokens, o.next, o.row;
    }
    assert Run(toks, i, currentRow) == Ok([]);
    assert blocks + [] == blocks;
    result := if |blocks| <= MaxBlocks then blocks else blocks[..MaxBlocks];
  }
}
