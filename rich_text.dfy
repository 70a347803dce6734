/**
 * `build_rich_text`: one left-to-right pass over the children of an `inline` token that keeps
 * the current annotation flags and link, and emits one Notion rich-text span per `text` and
 * `code_inline` child.
 */
module RichText {
  import opened Wrappers
  import opened Tokens

  /** The annotation object of a Notion rich-text span. */
  datatype Annotations = Annotations(bold: bool, italic: bool, strikethrough: bool, underline: bool,
                                     code: bool, color: string)

  /** A Notion rich-text span: its content, the URL of its link if any, and its annotations. */
  datatype Span = Span(content: string, link: Option<string>, annotations: Annotations)

  /** The flags every call starts from. */
  const Plain := Annotations(false, false, false, false, false, "default")

  /** The fixed annotations of an inline code span. */
  const CodeStyle := Annotations(false, false, false, false, true, "red")

  /** The formatting state between two tokens: the current flags and the current `href`. */
  datatype Style = Style(annotations: Annotations, link: Option<string>)

  const Initial := Style(Plain, None)

  /** How one token changes the formatting state. */
  function Apply(st: Style, t: Token): Style
  {
    var a := st.annotations;
    if t.kind == "strong_open" then st.(annotations := a.(bold := true))
    else if t.kind == "strong_close" then st.(annotations := a.(bold := false))
    else if t.kind == "em_open" then st.(annotations := a.(italic := true))
    else if t.kind == "em_close" then st.(annotations := a.(italic := false))
    else if t.kind == "s_open" then st.(annotations := a.(strikethrough := true))
    else if t.kind == "s_close" then st.(annotations := a.(strikethrough := false))
    else if t.kind == "link_open" then st.(link := t.href)
    else if t.kind == "link_close" then st.(link := None)
    else st
  }

  /** The formatting state after the tokens `ts`. */
  function StyleAfter(ts: seq<Token>): Style
  {
    if ts == [] then Initial else Apply(StyleAfter(ts[..|ts| - 1]), ts[|ts| - 1])
  }

  /** The tokens that produce a span. */
  predicate Emits(t: Token)
  {
    t.kind == "text" || t.kind == "code_inline"
  }

  /** A link is attached only when the current `href` is truthy. */
  function LinkOf(href: Option<string>): Option<string>
  {
    if href.Some? && href.value != [] then href else None
  }

  /** The span a `text` or `code_inline` token produces in state `st`. */
  function SpanOf(st: Style, t: Token): Span
    requires Emits(t)
  {
    if t.kind == "text" then Span(t.content, LinkOf(st.link), st.annotations)
    else Span(t.content, None, CodeStyle)
  }

  /** The spans `build_rich_text(ts)` returns. */
  function Spans(ts: seq<Token>): seq<Span>
  {
    if ts == [] then []
    else
      var init := ts[..|ts| - 1];
      var t := ts[|ts| - 1];
      Spans(init) + (if Emits(t) then [SpanOf(StyleAfter(init), t)] else [])
  }

  /** The positions of the tokens that produce a span, in order. */
  function EmitIndices(ts: seq<Token>): (ks: seq<nat>)
    ensures forall n :: 0 <= n < |ks| ==> ks[n] < |ts| && Emits(ts[ks[n]])
  {
    if ts == [] then []
    else EmitIndices(ts[..|ts| - 1]) + (if Emits(ts[|ts| - 1]) then [|ts| - 1] else [])
  }

  /** `build_rich_text` as the source writes it: a loop that updates the flags and the link. */
  method BuildRichText(tokens: seq<Token>) returns (richText: seq<Span>)
    ensures richText == Spans(tokens)
  {
    richText := [];
    var annotations := Plain;
    var link: Option<string> := None;
    var i := 0;
    while i < |tokens|
      invariant 0 <= i <= |tokens|
      invariant richText == Spans(tokens[..i])
      invariant Style(annotations, link) == StyleAfter(tokens[..i])
    {
      var token := tokens[i];
      assert tokens[..i + 1][..i] == tokens[..i];
      if token.kind == "text" {
        var url := if link.Some? && link.value != [] then link else None;
        richText := richText + [Span(token.content, url, annotations)];
      } else if token.kind == "code_inline" {
        richText := richText + [Span(token.content, None, CodeStyle)];
      } else if token.kind == "strong_open" {
        annotations := annotations.(bold := true);
      } else if token.kind == "strong_close" {
        annotations := annotations.(bold := false);
      } else if token.kind == "em_open" {
        annotations := annotations.(italic := true);
      } else if token.kind == "em_close" {
        annotations := annotations.(italic := false);
      } else if token.kind == "s_open" {
        annotations := annotations.(strikethrough := true);
      } else if token.kind == "s_close" {
        annotations := annotations.(strikethrough := false);
      } else if token.kind == "link_open" {
        link := token.href;
      } else if token.kind == "link_close" {
        link := None;
      }
      i := i + 1;
    }
    assert tokens[..i] == tokens;
  }

  /** One span per `text` / `code_inline` child, in order, each made from the state just before it. */
  lemma {:induction false} SpansAt(ts: seq<Token>)
    ensures |Spans(ts)| == |EmitIndices(ts)|
    ensures forall n :: 0 <= n < |Spans(ts)| ==>
      Spans(ts)[n] == SpanOf(StyleAfter(ts[..EmitIndices(ts)[n]]), ts[EmitIndices(ts)[n]])
  {
    if ts != [] {
      var init := ts[..|ts| - 1];
      SpansAt(init);
      forall n | 0 <= n < |EmitIndices(init)|
        ensures ts[..EmitIndices(init)[n]] == init[..EmitIndices(init)[n]]
        ensures ts[EmitIndices(init)[n]] == init[EmitIndices(init)[n]]
      {
      }
    }
  }

  /** The positions of the spans are exactly the `text` / `code_inline` children, strictly increasing. */
  lemma {:induction false} EmitIndicesExact(ts: seq<Token>)
    ensures forall n, m :: 0 <= n < m < |EmitIndices(ts)| ==> EmitIndices(ts)[n] < EmitIndices(ts)[m]
    ensures forall k :: 0 <= k < |ts| && Emits(ts[k]) ==> k in EmitIndices(ts)
  {
    if ts != [] {
      var init := ts[..|ts| - 1];
      EmitIndicesExact(init);
      forall k | 0 <= k < |ts| - 1 && Emits(ts[k]) ensures k in EmitIndices(ts) {
        assert init[k] == ts[k];
      }
    }
  }

  /** A flag is on exactly when an opening token was seen with no closing token after it. */
  predicate OpenedLast(ts: seq<Token>, open: string, close: string)
  {
    exists k :: 0 <= k < |ts| && ts[k].kind == open && forall j :: k < j < |ts| ==> ts[j].kind != close
  }

  lemma {:induction false} OpenedLastStep(ts: seq<Token>, open: string, close: string)
    requires ts != [] && open != close
    ensures var t := ts[|ts| - 1];
      OpenedLast(ts, open, close) <==>
        (t.kind == open || (t.kind != close && OpenedLast(ts[..|ts| - 1], open, close)))
  {
    var init := ts[..|ts| - 1];
    var t := ts[|ts| - 1];
    if OpenedLast(ts, open, close) && t.kind != open {
      var k :| 0 <= k < |ts| && ts[k].kind == open && forall j :: k < j < |ts| ==> ts[j].kind != close;
      assert k < |ts| - 1 && init[k] == ts[k];
      assert forall j :: k < j < |init| ==> init[j] == ts[j];
    }
    if t.kind == open {
      assert ts[|ts| - 1].kind == open;
    } else if t.kind != close && OpenedLast(init, open, close) {
      var k :| 0 <= k < |init| && init[k].kind == open && forall j :: k < j < |init| ==> init[j].kind != close;
      assert ts[k] == init[k];
      assert forall j :: k < j < |ts| ==> ts[j].kind != close;
    }
  }

  /**
   * The state after `ts`: each flag is on exactly when its opening token is the last of its
   * pair; underline, code and colour never change from the initial state.
   */
  lemma {:induction false} StyleFlags(ts: seq<Token>)
    ensures var a := StyleAfter(ts).annotations;
      (a.bold <==> OpenedLast(ts, "strong_open", "strong_close")) &&
      (a.italic <==> OpenedLast(ts, "em_open", "em_close")) &&
      (a.strikethrough <==> OpenedLast(ts, "s_open", "s_close")) &&
      !a.underline && !a.code && a.color == "default"
  {
    if ts != [] {
      StyleFlags(ts[..|ts| - 1]);
      OpenedLastStep(ts, "strong_open", "strong_close");
      OpenedLastStep(ts, "em_open", "em_close");
      OpenedLastStep(ts, "s_open", "s_close");
    }
  }

  /** The last `link_open` / `link_close` of `ts` is a `link_open` with this `href`. */
  predicate LinkedLast(ts: seq<Token>, href: Option<string>)
  {
    exists k :: 0 <= k < |ts| && ts[k].kind == "link_open" && ts[k].href == href &&
      forall j :: k < j < |ts| ==> ts[j].kind != "link_open" && ts[j].kind != "link_close"
  }

  lemma {:induction false} LinkedLastStep(ts: seq<Token>, h: Option<string>)
    requires ts != []
    ensures var t := ts[|ts| - 1];
      LinkedLast(ts, h) <==>
        ((t.kind == "link_open" && t.href == h) ||
         (t.kind != "link_open" && t.kind != "link_close" && LinkedLast(ts[..|ts| - 1], h)))
  {
    var t := ts[|ts| - 1];
    if LinkedLast(ts, h) && !(t.kind == "link_open" && t.href == h) {
      LinkedLastInit(ts, h);
    }
    if t.kind == "link_open" && t.href == h {
      assert ts[|ts| - 1].kind == "link_open";
    } else if t.kind != "link_open" && t.kind != "link_close" && LinkedLast(ts[..|ts| - 1], h) {
      LinkedLastExtend(ts, h);
    }
  }

  /** A link found last that is not the final token was found last before it, and the final token is no link token. */
  lemma {:induction false} LinkedLastInit(ts: seq<Token>, h: Option<string>)
    requires ts != [] && LinkedLast(ts, h) && !(ts[|ts| - 1].kind == "link_open" && ts[|ts| - 1].href == h)
    ensures ts[|ts| - 1].kind != "link_open" && ts[|ts| - 1].kind != "link_close" && LinkedLast(ts[..|ts| - 1], h)
  {
    var init := ts[..|ts| - 1];
    var k :| 0 <= k < |ts| && ts[k].kind == "link_open" && ts[k].href == h &&
      forall j :: k < j < |ts| ==> ts[j].kind != "link_open" && ts[j].kind != "link_close";
    assert k < |ts| - 1 && init[k] == ts[k];
    assert forall j :: k < j < |init| ==> init[j] == ts[j];
  }

  /** A final token that is no link token keeps the link found last before it. */
  lemma {:induction false} LinkedLastExtend(ts: seq<Token>, h: Option<string>)
    requires ts != [] && ts[|ts| - 1].kind != "link_open" && ts[|ts| - 1].kind != "link_close"
    requires LinkedLast(ts[..|ts| - 1], h)
    ensures LinkedLast(ts, h)
  {
    var init := ts[..|ts| - 1];
    var k :| 0 <= k < |init| && init[k].kind == "link_open" && init[k].href == h &&
      forall j :: k < j < |init| ==> init[j].kind != "link_open" && init[j].kind != "link_close";
    assert ts[k] == init[k];
    forall j | k < j < |ts| ensures ts[j].kind != "link_open" && ts[j].kind != "link_close" {
      if j < |init| {
        assert ts[j] == init[j];
      }
    }
  }

  /** The current link is the `href` of the last `link_open` unless a `link_close` came after it. */
  lemma {:induction false} StyleLink(ts: seq<Token>)
    ensures StyleAfter(ts).link.Some? ==> LinkedLast(ts, StyleAfter(ts).link)
    ensures forall h :: LinkedLast(ts, h) ==> StyleAfter(ts).link == h
  {
    if ts != [] {
      var init := ts[..|ts| - 1];
      StyleLink(init);
      LinkedLastStep(ts, StyleAfter(ts).link);
      forall h | LinkedLast(ts, h) ensures StyleAfter(ts).link == h {
        LinkedLastStep(ts, h);
      }
    }
  }

  /**
   * The spans' styles: an inline-code span always has only `code` on, colour red and no link;
   * a text span never has `code` or `underline` on and keeps the default colour.
   */
  lemma {:induction false} SpanStyles(ts: seq<Token>, n: nat)
    requires n < |EmitIndices(ts)|
    ensures var k := EmitIndices(ts)[n];
      k < |ts| && n < |Spans(ts)| &&
      Spans(ts)[n].content == ts[k].content &&
      (ts[k].kind == "code_inline" ==> Spans(ts)[n].annotations == CodeStyle && Spans(ts)[n].link == None) &&
      (ts[k].kind == "text" ==>
        var a := Spans(ts)[n].annotations;
        !a.code && !a.underline && a.color == "default" &&
        (Spans(ts)[n].link.Some? ==> Spans(ts)[n].link.value != []))
  {
    SpansAt(ts);
    var k := EmitIndices(ts)[n];
    StyleFlags(ts[..k]);
  }

  /** Appending one token extends the state by `Apply` and the spans by at most that token's span. */
  lemma {:induction false} SpansSnoc(init: seq<Token>, t: Token)
    ensures StyleAfter(init + [t]) == Apply(StyleAfter(init), t)
    ensures Spans(init + [t]) == Spans(init) + (if Emits(t) then [SpanOf(StyleAfter(init), t)] else [])
  {
    assert (init + [t])[..|init|] == init;
  }

  /** Once the state is back to the initial one, what follows is converted as if on its own. */
  lemma {:induction false} SpansFromInitial(a: seq<Token>, b: seq<Token>)
    requires StyleAfter(a) == Initial
    ensures StyleAfter(a + b) == StyleAfter(b)
    ensures Spans(a + b) == Spans(a) + Spans(b)
  {
    if b != [] {
      var init := b[..|b| - 1];
      var t := b[|b| - 1];
      SpansFromInitial(a, init);
      assert a + b == (a + init) + [t];
      SpansSnoc(a + init, t);
      SpansSnoc(init, t);
      assert init + [t] == b;
    } else {
      assert a + b == a;
    }
  }

  /** `**bold**`: one bold span, and the state is plain again afterwards. */
  lemma BoldExample()
    ensures var ts := [Bare("strong_open"), TextToken("bold"), Bare("strong_close")];
      Spans(ts) == [Span("bold", None, Plain.(bold := true))] && StyleAfter(ts) == Initial
  {
    var p1 := [Bare("strong_open")];
    var p2 := p1 + [TextToken("bold")];
    SpansSnoc([], p1[0]);
    assert [] + p1 == p1;
    SpansSnoc(p1, TextToken("bold"));
    SpansSnoc(p2, Bare("strong_close"));
    assert p2 + [Bare("strong_close")] == [Bare("strong_open"), TextToken("bold"), Bare("strong_close")];
  }

  /** ` and *em*`: a plain span, then an italic one, and the state is plain again afterwards. */
  lemma ItalicExample()
    ensures var ts := [TextToken(" and "), Bare("em_open"), TextToken("em"), Bare("em_close")];
      Spans(ts) == [Span(" and ", None, Plain), Span("em", None, Plain.(italic := true))] &&
      StyleAfter(ts) == Initial
  {
    var p1 := [TextToken(" and ")];
    var p2 := p1 + [Bare("em_open")];
    var p3 := p2 + [TextToken("em")];
    SpansSnoc([], p1[0]);
    assert [] + p1 == p1;
    SpansSnoc(p1, Bare("em_open"));
    SpansSnoc(p2, TextToken("em"));
    SpansSnoc(p3, Bare("em_close"));
    assert p3 + [Bare("em_close")] == [TextToken(" and "), Bare("em_open"), TextToken("em"), Bare("em_close")];
  }

  /**
   * `**bold** and *em* and `code``: a bold span, a plain one, an italic one, a plain one, and an
   * inline-code span carrying no other annotation.
   */
  lemma MixedExample()
    ensures var ts := [Bare("strong_open"), TextToken("bold"), Bare("strong_close"), TextToken(" and "),
                       Bare("em_open"), TextToken("em"), Bare("em_close"), TextToken(" and "),
                       Token("code_inline", [], "code", [], [], None, None)];
      Spans(ts) == [Span("bold", None, Plain.(bold := true)), Span(" and ", None, Plain),
                    Span("em", None, Plain.(italic := true)), Span(" and ", None, Plain),
                    Span("code", None, CodeStyle)]
  {
    var a := [Bare("strong_open"), TextToken("bold"), Bare("strong_close")];
    var b := [TextToken(" and "), Bare("em_open"), TextToken("em"), Bare("em_close")];
    var code := Token("code_inline", [], "code", [], [], None, None);
    var c := [TextToken(" and "), code];
    BoldExample();
    ItalicExample();
    SpansFromInitial(a, b);
    SpansSnoc([], TextToken(" and "));
    assert [] + [TextToken(" and ")] == [TextToken(" and ")];
    SpansSnoc([TextToken(" and ")], code);
    assert StyleAfter(a + b) == Initial;
    SpansFromInitial(a + b, c);
    assert a + b + c == [Bare("strong_open"), TextToken("bold"), Bare("strong_close"), TextToken(" and "),
                         Bare("em_open"), TextToken("em"), Bare("em_close"), TextToken(" and "), code];
  }
}
