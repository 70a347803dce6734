/**
 * The string-level pieces of the MS Learn scraper: the custom HTML-to-Markdown conversions of
 * images, code blocks, inline emphasis and alert boxes, the SQL heuristic, the cleanup of the
 * converted page, and the file names the scraped pages are saved under.
 */
module Scraper {
  import opened Wrappers
  import opened Text
  import opened Alerts
  import ManagerHelpers

  // ---------------------------------------------------------------------------------------------
  // clean_filename

  /** The characters a file name may not contain: `\ / * ? : " < > |`. */
  predicate Forbidden(c: char)
  {
    c == '\\' || c == '/' || c == '*' || c == '?' || c == ':' || c == '"' || c == '<' || c == '>' || c == '|'
  }

  /** The regular-expression substitution: the characters of `s` that are not forbidden, in order. */
  function RemoveForbidden(s: string): (r: string)
    ensures forall k :: 0 <= k < |r| ==> !Forbidden(r[k]) && r[k] in s
    ensures (forall k :: 0 <= k < |s| ==> !Forbidden(s[k])) ==> r == s
  {
    if s == [] then []
    else
      var rest := RemoveForbidden(s[1..]);
      assert forall k :: 0 <= k < |rest| ==> rest[k] in s by {
        forall k | 0 <= k < |rest| ensures rest[k] in s {
          var p :| 0 <= p < |s[1..]| && s[1..][p] == rest[k];
          assert s[p + 1] == rest[k];
        }
      }
      assert s == [s[0]] + s[1..];
      if Forbidden(s[0]) then rest else [s[0]] + rest
  }

  /** On one character the substitution drops it exactly when it is forbidden. */
  lemma RemoveForbiddenChar(c: char)
    ensures RemoveForbidden([c]) == if Forbidden(c) then [] else [c]
  {
    assert [c][1..] == [];
  }

  /**
   * The substitution works character by character: it distributes over concatenation, so with
   * `RemoveForbiddenChar` it keeps exactly the allowed characters, in order.
   */
  lemma {:induction false} RemoveForbiddenAppend(a: string, b: string)
    ensures RemoveForbidden(a + b) == RemoveForbidden(a) + RemoveForbidden(b)
    decreases |a|
  {
    if a == [] {
      assert a + b == b;
    } else {
      assert (a + b)[0] == a[0] && (a + b)[1..] == a[1..] + b;
      RemoveForbiddenAppend(a[1..], b);
    }
  }

  const Untitled := "Untitled"

  /** The file name a page title is saved under. */
  function CleanFilename(text: string): string
  {
    var joined := Join(Words(RemoveForbidden(text)), " ");
    var stripped := Strip(joined);
    if stripped == [] then Untitled else stripped
  }

  /** A file name as the cleaner leaves it: non-empty, no forbidden character, and single-spaced. */
  predicate WellFormedName(r: string)
  {
    r != [] &&
    (forall k :: 0 <= k < |r| ==> !Forbidden(r[k])) &&
    !IsSpace(r[0]) && !IsSpace(r[|r| - 1]) &&
    SingleSpaced(r)
  }

  /** The words of the cleaned title, joined by single spaces; the words of the title when there are any. */
  lemma CleanedWords(text: string)
    ensures var ws := Words(RemoveForbidden(text)); var joined := Join(ws, " ");
      AreWords(ws) && Strip(joined) == joined && (ws == [] <==> joined == [])
  {
    WordsShape(RemoveForbidden(text));
    JoinedWordsStripped(Words(RemoveForbidden(text)));
  }

  lemma UntitledWellFormed()
    ensures WellFormedName(Untitled)
  {
  }

  /**
   * Whatever the title, the name is non-empty, has no forbidden character, no whitespace at either
   * end, and its only whitespace is single spaces between non-whitespace characters.
   */
  lemma {:induction false} CleanFilenameWellFormed(text: string)
    ensures WellFormedName(CleanFilename(text))
  {
    var s := RemoveForbidden(text);
    JoinedWordsName(s);
    if Join(Words(s), " ") == [] {
      UntitledWellFormed();
    }
  }

  /** The words of text without forbidden characters, joined by single spaces: nothing to strip, and a well-formed name unless empty. */
  lemma {:induction false} JoinedWordsName(s: string)
    requires forall k :: 0 <= k < |s| ==> !Forbidden(s[k])
    ensures var joined := Join(Words(s), " ");
      Strip(joined) == joined && (joined != [] ==> WellFormedName(joined))
  {
    WordsShape(s);
    JoinedWordsStripped(Words(s));
    JoinSpacesShape(Words(s));
    JoinedWordsAllowed(s);
  }

  /** Joining the words of text without forbidden characters brings in none. */
  lemma {:induction false} JoinedWordsAllowed(s: string)
    requires forall k :: 0 <= k < |s| ==> !Forbidden(s[k])
    ensures var joined := Join(Words(s), " ");
      forall k :: 0 <= k < |joined| ==> !Forbidden(joined[k])
  {
    var ws := Words(s);
    var joined := Join(ws, " ");
    forall k | 0 <= k < |joined| ensures !Forbidden(joined[k]) {
      JoinChars(ws, " ", joined[k]);
      if joined[k] !in " " {
        var n, j :| 0 <= n < |ws| && 0 <= j < |ws[n]| && ws[n][j] == joined[k];
        WordsChars(s, n, j);
      }
    }
  }

  /** A space-joined list of words without forbidden characters is its own clean name. */
  lemma CleanFilenameFixes(ws: seq<string>)
    requires AreWords(ws) && ws != []
    requires forall k :: 0 <= k < |Join(ws, " ")| ==> !Forbidden(Join(ws, " ")[k])
    ensures CleanFilename(Join(ws, " ")) == Join(ws, " ")
  {
    var name := Join(ws, " ");
    assert RemoveForbidden(name) == name;
    WordsOfJoin(ws);
    JoinSpacesShape(ws);
    StripUnchanged(name);
  }

  /** Cleaning a cleaned name changes nothing. */
  lemma {:induction false} CleanFilenameIdempotent(text: string)
    ensures CleanFilename(CleanFilename(text)) == CleanFilename(text)
  {
    var name := CleanFilename(text);
    CleanFilenameWellFormed(text);
    var ws := Words(RemoveForbidden(text));
    CleanedWords(text);
    if ws == [] {
      assert name == Untitled;
      assert Join([Untitled], " ") == Untitled;
      CleanFilenameFixes([Untitled]);
    } else {
      assert name == Join(ws, " ");
      CleanFilenameFixes(ws);
    }
  }

  // ---------------------------------------------------------------------------------------------
  // _is_sql

  const SqlKeywords: seq<string> := ["SELECT", "INSERT", "UPDATE", "DELETE", "FROM", "WHERE", "JOIN"]

  /** How many of `ks` occur in `u`. */
  function KeywordCount(u: string, ks: seq<string>): nat
  {
    if ks == [] then 0 else (if Contains(u, ks[0]) then 1 else 0) + KeywordCount(u, ks[1..])
  }

  /** The heuristic that tags an unlabelled code block as SQL. */
  function IsSql(text: string): bool
  {
    KeywordCount(Upper(text), SqlKeywords) >= 2
  }

  predicate OneOccurs(u: string, ks: seq<string>)
  {
    exists i :: 0 <= i < |ks| && Contains(u, ks[i])
  }

  predicate TwoOccur(u: string, ks: seq<string>)
  {
    exists i, j :: 0 <= i < j < |ks| && Contains(u, ks[i]) && Contains(u, ks[j])
  }

  lemma {:induction false} KeywordCountOne(u: string, ks: seq<string>)
    ensures KeywordCount(u, ks) >= 1 <==> OneOccurs(u, ks)
  {
    if ks != [] {
      KeywordCountOne(u, ks[1..]);
      if OneOccurs(u, ks[1..]) {
        var i :| 0 <= i < |ks| - 1 && Contains(u, ks[1..][i]);
        assert Contains(u, ks[i + 1]);
      }
      if OneOccurs(u, ks) && !Contains(u, ks[0]) {
        var i :| 0 <= i < |ks| && Contains(u, ks[i]);
        assert i > 0 && Contains(u, ks[1..][i - 1]);
      }
    }
  }

  lemma {:induction false} KeywordCountTwo(u: string, ks: seq<string>)
    ensures KeywordCount(u, ks) >= 2 <==> TwoOccur(u, ks)
  {
    if ks != [] {
      var tail := ks[1..];
      KeywordCountTwo(u, tail);
      KeywordCountOne(u, tail);
      if KeywordCount(u, ks) >= 2 {
        if Contains(u, ks[0]) {
          var j :| 0 <= j < |tail| && Contains(u, tail[j]);
          assert Contains(u, ks[j + 1]);
        } else {
          var i, j :| 0 <= i < j < |tail| && Contains(u, tail[i]) && Contains(u, tail[j]);
          assert Contains(u, ks[i + 1]) && Contains(u, ks[j + 1]);
        }
      }
      if TwoOccur(u, ks) {
        var i, j :| 0 <= i < j < |ks| && Contains(u, ks[i]) && Contains(u, ks[j]);
        assert Contains(u, tail[j - 1]);
        if i > 0 {
          assert Contains(u, tail[i - 1]);
        }
      }
    }
  }

  /** A text is SQL exactly when two different keywords occur in its upper-cased form. */
  lemma IsSqlSpec(text: string)
    ensures IsSql(text) <==> TwoOccur(Upper(text), SqlKeywords)
  {
    KeywordCountTwo(Upper(text), SqlKeywords);
  }

  lemma {:induction false} KeywordCountMonotone(u: string, v: string, ks: seq<string>)
    requires forall i :: 0 <= i < |ks| && Contains(u, ks[i]) ==> Contains(v, ks[i])
    ensures KeywordCount(u, ks) <= KeywordCount(v, ks)
  {
    if ks != [] {
      forall i | 0 <= i < |ks| - 1 && Contains(u, ks[1..][i]) ensures Contains(v, ks[1..][i]) {
        assert ks[1..][i] == ks[i + 1];
      }
      KeywordCountMonotone(u, v, ks[1..]);
    }
  }

  /** Appending text to a code block never takes the SQL tag away. */
  lemma IsSqlAppend(a: string, b: string)
    ensures IsSql(a) ==> IsSql(a + b)
  {
    UpperConcat(a, b);
    forall i | 0 <= i < |SqlKeywords| && Contains(Upper(a), SqlKeywords[i])
      ensures Contains(Upper(a + b), SqlKeywords[i])
    {
      ContainsAppend(Upper(a), Upper(b), SqlKeywords[i]);
    }
    KeywordCountMonotone(Upper(a), Upper(a + b), SqlKeywords);
  }

  // ---------------------------------------------------------------------------------------------
  // The inline wrappers: code, strong and b, em and i

  function InlineCode(text: string): string
  {
    if text == [] then [] else " `" + text + "` "
  }

  function Bold(text: string): string
  {
    if text == [] then [] else "**" + text + "**"
  }

  function Italic(text: string): string
  {
    if text == [] then [] else "*" + text + "*"
  }

  /** The text between `open` and `close`, when `r` is exactly that. */
  function Unwrap(r: string, open: string, close: string): Option<string>
  {
    if |open| + |close| <= |r| && r[..|open|] == open && r[|r| - |close|..] == close then
      Some(r[|open|..|r| - |close|])
    else None
  }

  /**
   * Empty text gives empty Markdown; any other text comes back intact from between the markers
   * its wrapper puts around it.
   */
  lemma WrappersUnwrap(text: string)
    ensures InlineCode(text) == [] <==> text == []
    ensures Bold(text) == [] <==> text == []
    ensures Italic(text) == [] <==> text == []
    ensures text != [] ==> Unwrap(InlineCode(text), " `", "` ") == Some(text)
    ensures text != [] ==> Unwrap(Bold(text), "**", "**") == Some(text)
    ensures text != [] ==> Unwrap(Italic(text), "*", "*") == Some(text)
  {
    if text != [] {
      var c := InlineCode(text);
      assert c[..2] == " `" && c[|c| - 2..] == "` " && c[2..|c| - 2] == text;
      var b := Bold(text);
      assert b[..2] == "**" && b[|b| - 2..] == "**" && b[2..|b| - 2] == text;
      var i := Italic(text);
      assert i[..1] == "*" && i[|i| - 1..] == "*" && i[1..|i| - 1] == text;
    }
  }

  // ---------------------------------------------------------------------------------------------
  // convert_img

  /** The attributes of an `<img>` element that the converter reads; `None` for a missing one. */
  datatype Img = Img(src: Option<string>, dataSrc: Option<string>, dataOriginal: Option<string>, alt: Option<string>)

  /** An attribute value Python treats as true: present and non-empty. */
  predicate Truthy(a: Option<string>)
  {
    a.Some? && a.value != []
  }

  /** `src or data-src or data-original`, as far as it is true. */
  function ImageSource(img: Img): Option<string>
  {
    if Truthy(img.src) then img.src
    else if Truthy(img.dataSrc) then img.dataSrc
    else if Truthy(img.dataOriginal) then img.dataOriginal
    else None
  }

  /**
   * The image Markdown; relative sources go through `resolve`, which stands for joining them to
   * the page's base URL.
   */
  function ConvertImg(img: Img, resolve: string -> string): string
  {
    match ImageSource(img)
    case None => []
    case Some(s) =>
      var alt := if img.alt.Some? then img.alt.value else [];
      var url := if StartsWith(s, "http") then s else resolve(s);
      if url == [] then [] else "![" + alt + "](" + url + ")"
  }

  /**
   * The source is `src` when that is set, else `data-src`, else `data-original`; empty values count
   * as missing. The image is dropped when there is none, or when a relative source resolves to
   * nothing.
   */
  lemma ConvertImgSource(img: Img, resolve: string -> string)
    ensures ImageSource(img).Some? ==> ImageSource(img).value != []
    ensures ImageSource(img) == img.src <== Truthy(img.src)
    ensures ImageSource(img) == img.dataSrc <== !Truthy(img.src) && Truthy(img.dataSrc)
    ensures ImageSource(img) == img.dataOriginal <== !Truthy(img.src) && !Truthy(img.dataSrc) && Truthy(img.dataOriginal)
    ensures ImageSource(img).None? <==> !Truthy(img.src) && !Truthy(img.dataSrc) && !Truthy(img.dataOriginal)
    ensures ConvertImg(img, resolve) == [] <==>
      ImageSource(img).None? ||
      (!StartsWith(ImageSource(img).value, "http") && resolve(ImageSource(img).value) == [])
  {
  }

  /** An absolute source is written as it is, whatever `resolve` does. */
  lemma ConvertImgAbsolute(img: Img, resolve: string -> string, r2: string -> string)
    requires ImageSource(img).Some? && StartsWith(ImageSource(img).value, "http")
    ensures ConvertImg(img, resolve) == ConvertImg(img, r2)
    ensures Unwrap(ConvertImg(img, resolve), "![" + (if img.alt.Some? then img.alt.value else []) + "](", ")")
      == ImageSource(img)
  {
    var alt := if img.alt.Some? then img.alt.value else [];
    var s := ImageSource(img).value;
    var r := ConvertImg(img, resolve);
    var open := "![" + alt + "](";
    assert r == open + s + ")";
    assert r[..|open|] == open && r[|r| - 1..] == ")" && r[|open|..|r| - 1] == s;
  }

  // ---------------------------------------------------------------------------------------------
  // convert_a

  /**
   * The link Markdown for an `<a>` with attribute `href` and converted content `text`; relative
   * targets go through `resolve` as in `ConvertImg`. `None` is what Python's `None` is: no target
   * and no text.
   */
  function ConvertA(href: Option<string>, text: string, resolve: string -> string): Option<string>
  {
    var target := if Truthy(href) && !StartsWith(href.value, "http") then Some(resolve(href.value)) else href;
    var caption := if text == [] then target else Some(text);
    if Truthy(target) then Some("[" + caption.value + "](" + target.value + ")") else caption
  }

  /** The caption a link shows: its text, or the target when the text is empty. */
  function LinkLabel(text: string, target: string): string
  {
    if text == [] then target else text
  }

  /**
   * An absolute target is kept as it is, whatever `resolve` does, and reads back from between
   * `[caption](` and `)`.
   */
  lemma ConvertALink(href: Option<string>, text: string, resolve: string -> string, r2: string -> string)
    requires Truthy(href) && StartsWith(href.value, "http")
    ensures ConvertA(href, text, resolve) == ConvertA(href, text, r2)
    ensures ConvertA(href, text, resolve).Some?
    ensures Unwrap(ConvertA(href, text, resolve).value, "[" + LinkLabel(text, href.value) + "](", ")") == href
  {
    LinkReadsBack(LinkLabel(text, href.value), href.value);
  }

  /**
   * A relative target is replaced by what `resolve` makes of it; when that is empty no link is
   * written and only the text is left.
   */
  lemma ConvertARelative(href: Option<string>, text: string, resolve: string -> string)
    requires Truthy(href) && !StartsWith(href.value, "http")
    ensures var t := resolve(href.value); var r := ConvertA(href, text, resolve);
      r.Some? &&
      (t != [] ==> Unwrap(r.value, "[" + LinkLabel(text, t) + "](", ")") == Some(t)) &&
      (t == [] ==> r.value == text)
  {
    var t := resolve(href.value);
    if t != [] {
      LinkReadsBack(LinkLabel(text, t), t);
    }
  }

  /**
   * Without a target the text is returned bare; with empty text too the result is the missing or
   * empty `href` itself, so `None` exactly when both are missing.
   */
  lemma ConvertANoLink(href: Option<string>, text: string, resolve: string -> string)
    requires !Truthy(href)
    ensures ConvertA(href, text, resolve) == if text != [] then Some(text) else href
    ensures ConvertA(href, text, resolve).None? <==> href.None? && text == []
  {
  }

  /** `[caption](target)` gives `target` back from between its markers. */
  lemma LinkReadsBack(caption: string, target: string)
    ensures var r := "[" + caption + "](" + target + ")";
      Unwrap(r, "[" + caption + "](", ")") == Some(target)
  {
    var open := "[" + caption + "](";
    var r := open + target + ")";
    assert "[" + caption + "](" + target + ")" == r;
    assert r[..|open|] == open && r[|r| - 1..] == ")" && r[|open|..|r| - 1] == target;
  }

  // ---------------------------------------------------------------------------------------------
  // convert_div

  /** The class names, upper-cased. */
  function UpperAll(classes: seq<string>): (up: seq<string>)
    ensures |up| == |classes| && forall n :: 0 <= n < |classes| ==> up[n] == Upper(classes[n])
  {
    seq(|classes|, n requires 0 <= n < |classes| => Upper(classes[n]))
  }

  /** The alert a `<div>` stands for, from its classes. */
  function DivAlert(classes: seq<string>): Option<AlertKind>
  {
    var up := UpperAll(classes);
    if "NOTE" in up || "ALERT-INFO" in up then Some(Note)
    else if "TIP" in up || "ALERT-SUCCESS" in up then Some(Tip)
    else if "IMPORTANT" in up then Some(Important)
    else if "WARNING" in up || "ALERT-WARNING" in up then Some(Warning)
    else if "CAUTION" in up then Some(Caution)
    else None
  }

  /** The upper-cased class names that mark a `<div>` as an alert of kind `k`. */
  function AlertClasses(k: AlertKind): set<string>
  {
    match k
    case Note => {"NOTE", "ALERT-INFO"}
    case Tip => {"TIP", "ALERT-SUCCESS"}
    case Important => {"IMPORTANT"}
    case Warning => {"WARNING", "ALERT-WARNING"}
    case Caution => {"CAUTION"}
  }

  predicate HasClassOf(classes: seq<string>, k: AlertKind)
  {
    exists n :: 0 <= n < |classes| && Upper(classes[n]) in AlertClasses(k)
  }

  lemma UpperAllHas(classes: seq<string>, c: string)
    ensures c in UpperAll(classes) <==> exists n :: 0 <= n < |classes| && Upper(classes[n]) == c
  {
    var up := UpperAll(classes);
    if c in up {
      var n :| 0 <= n < |up| && up[n] == c;
    }
  }

  /** Whether the upper-cased classes name kind `k`, spelled the way the converter tests it. */
  lemma HasClassOfNames(classes: seq<string>)
    ensures var up := UpperAll(classes);
      (HasClassOf(classes, Note) <==> "NOTE" in up || "ALERT-INFO" in up) &&
      (HasClassOf(classes, Tip) <==> "TIP" in up || "ALERT-SUCCESS" in up) &&
      (HasClassOf(classes, Important) <==> "IMPORTANT" in up) &&
      (HasClassOf(classes, Warning) <==> "WARNING" in up || "ALERT-WARNING" in up) &&
      (HasClassOf(classes, Caution) <==> "CAUTION" in up)
  {
    UpperAllHas(classes, "NOTE");
    UpperAllHas(classes, "ALERT-INFO");
    UpperAllHas(classes, "TIP");
    UpperAllHas(classes, "ALERT-SUCCESS");
    UpperAllHas(classes, "IMPORTANT");
    UpperAllHas(classes, "WARNING");
    UpperAllHas(classes, "ALERT-WARNING");
    UpperAllHas(classes, "CAUTION");
  }

  /**
   * A `<div>` is an alert of kind `k` exactly when one of its classes names `k`, in any case, and
   * none names a kind tried before `k`; it is no alert exactly when no class names any kind.
   */
  lemma DivAlertSpec(classes: seq<string>, k: AlertKind)
    ensures DivAlert(classes) == Some(k) <==>
      HasClassOf(classes, k) && forall j: AlertKind :: Rank(j) < Rank(k) ==> !HasClassOf(classes, j)
    ensures DivAlert(classes) == None <==> forall j: AlertKind :: !HasClassOf(classes, j)
  {
    HasClassOfNames(classes);
  }

  /** The alert text without surrounding whitespace and without a leading type word in any case. */
  function AlertBody(text: string, k: AlertKind): string
  {
    var clean := Strip(text);
    if StartsWith(Upper(clean), Name(k)) then Strip(clean[|Name(k)|..]) else clean
  }

  /** The Markdown of a `<div>` whose converted content is `text`. */
  function ConvertDiv(classes: seq<string>, text: string): string
  {
    match DivAlert(classes)
    case None => text
    case Some(k) => "\n> [!" + Name(k) + "]\n" + Join(Quoted(SplitLines(AlertBody(text, k))), "\n") + "\n\n"
  }

  /** Each line prefixed with `> `. */
  function Quoted(lines: seq<string>): (q: seq<string>)
    ensures |q| == |lines| && forall n :: 0 <= n < |lines| ==> q[n] == "> " + lines[n]
  {
    seq(|lines|, n requires 0 <= n < |lines| => "> " + lines[n])
  }

  /** The type word is dropped whatever its case, together with the whitespace after it. */
  lemma AlertBodyDropsWord(text: string, k: AlertKind, word: string, rest: string)
    requires Strip(text) == word + rest && Upper(word) == Name(k)
    ensures AlertBody(text, k) == Strip(rest)
  {
    UpperConcat(word, rest);
    assert Upper(word + rest)[..|Name(k)|] == Name(k);
    assert (word + rest)[|Name(k)|..] == rest;
  }

  /** Text that does not start with the type word only loses its surrounding whitespace. */
  lemma AlertBodyKeepsText(text: string, k: AlertKind)
    requires !StartsWith(Upper(Strip(text)), Name(k))
    ensures AlertBody(text, k) == Strip(text)
  {
  }

  /**
   * A `<div>` that is no alert passes its content through; an alert becomes a blockquote that
   * opens with the `[!KIND]` line and ends with a blank line, and every line of the body is quoted.
   */
  lemma ConvertDivShape(classes: seq<string>, text: string)
    ensures DivAlert(classes) == None ==> ConvertDiv(classes, text) == text
    ensures DivAlert(classes).Some? ==>
      var k := DivAlert(classes).value; var r := ConvertDiv(classes, text);
      var head := "\n> " + Marker(k) + "\n";
      StartsWith(r, head) && r[|r| - 2..] == "\n\n" &&
      r[|head|..|r| - 2] == Join(Quoted(SplitLines(AlertBody(text, k))), "\n")
  {
    if DivAlert(classes).Some? {
      var k := DivAlert(classes).value;
      var body := Join(Quoted(SplitLines(AlertBody(text, k))), "\n");
      var head := "\n> " + Marker(k) + "\n";
      assert "\n> [!" + Name(k) + "]\n" == head;
      assert ConvertDiv(classes, text) == head + body + "\n\n";
      Framed(head, body, "\n\n");
    }
  }

  lemma Framed(head: string, body: string, tail: string)
    ensures var r := head + body + tail;
      StartsWith(r, head) && r[|r| - |tail|..] == tail && r[|head|..|r| - |tail|] == body
  {
    var r := head + body + tail;
    assert r[..|head|] == head;
  }


  /**
   * The blockquote the scraper writes for an alert carries that alert's marker, so the uploader
   * turns it into a callout, of that kind or of one it tries before it.
   */
  lemma ConvertDivDetected(classes: seq<string>, text: string)
    requires DivAlert(classes).Some?
    ensures var k := DivAlert(classes).value; var found := DetectAlert(ConvertDiv(classes, text));
      Contains(ConvertDiv(classes, text), Marker(k)) && found.Some? && Rank(found.value) <= Rank(k)
  {
    var k := DivAlert(classes).value;
    ConvertDivShape(classes, text);
    HeadMarker(ConvertDiv(classes, text), Marker(k));
    MarkedDetected(ConvertDiv(classes, text), k);
  }

  /** A text that starts with a line `> ` followed by `m` contains `m`. */
  lemma {:induction false} HeadMarker(r: string, m: string)
    requires StartsWith(r, "\n> " + m + "\n")
    ensures Contains(r, m)
  {
    var head := "\n> " + m + "\n";
    assert r[3..3 + |m|] == head[3..3 + |m|] == m;
    ContainsAt(r, m, 3);
  }

  /** A text holding the marker of `k` is detected as an alert, of kind `k` or of one tried before it. */
  lemma {:induction false} MarkedDetected(r: string, k: AlertKind)
    requires Contains(r, Marker(k))
    ensures DetectAlert(r).Some? && Rank(DetectAlert(r).value) <= Rank(k)
  {
    DetectAlertSpec(r, k);
    if DetectAlert(r).Some? {
      DetectAlertSpec(r, DetectAlert(r).value);
    }
  }

  // ---------------------------------------------------------------------------------------------
  // convert_pre

  /** The `<code>` element inside a `<pre>`: its classes and its text. */
  datatype CodeElement = CodeElement(classes: seq<string>, text: string)

  const LangPrefix := "lang-"

  /** The language named by the last `lang-` class, with every `lang-` removed from it; `""` without one. */
  function LangOf(classes: seq<string>): string
  {
    if classes == [] then []
    else if StartsWith(classes[|classes| - 1], LangPrefix) then ReplaceAll(classes[|classes| - 1], LangPrefix, [])
    else LangOf(classes[..|classes| - 1])
  }

  /** The language written on the fence. */
  function PreLanguage(code: CodeElement): string
  {
    var language := LangOf(code.classes);
    if language == [] && IsSql(code.text) then "sql" else language
  }

  /** The fenced block a `<pre>` becomes, from its `<code>` child when it has one. */
  function PreMarkdown(code: Option<CodeElement>, preText: string): string
  {
    var language := if code.Some? then PreLanguage(code.value) else [];
    var raw := if code.Some? then code.value.text else preText;
    FencedBlock(language, Strip(raw))
  }

  /** A fenced code block set off by blank lines: the fence with its language, then the code on its own lines. */
  function FencedBlock(language: string, code: string): string
  {
    "\n\n" + ManagerHelpers.Fence + language + ("\n" + code + "\n" + ManagerHelpers.Fence + "\n\n")
  }

  /** `convert_pre`: the classes are scanned in order and each `lang-` class overrides the language. */
  method ConvertPre(code: Option<CodeElement>, preText: string) returns (md: string)
    ensures md == PreMarkdown(code, preText)
  {
    var language := "";
    var raw: string;
    if code.Some? {
      var classes := code.value.classes;
      for n := 0 to |classes|
        invariant language == LangOf(classes[..n])
      {
        assert classes[..n + 1][..n] == classes[..n];
        if StartsWith(classes[n], LangPrefix) {
          language := ReplaceAll(classes[n], LangPrefix, []);
        }
      }
      assert classes[..|classes|] == classes;
      if language == [] && IsSql(code.value.text) {
        language := "sql";
      }
      raw := code.value.text;
    } else {
      raw := preText;
    }
    md := FencedBlock(language, Strip(raw));
  }

  /** The last `lang-` class decides the language; classes after it that are not `lang-` do not matter. */
  lemma {:induction false} LangOfLast(classes: seq<string>, j: nat)
    requires j < |classes| && StartsWith(classes[j], LangPrefix)
    requires forall m :: j < m < |classes| ==> !StartsWith(classes[m], LangPrefix)
    ensures LangOf(classes) == ReplaceAll(classes[j], LangPrefix, [])
    decreases |classes|
  {
    if j < |classes| - 1 {
      var init := classes[..|classes| - 1];
      LangOfLast(init, j);
    }
  }

  /** Without a `lang-` class there is no language. */
  lemma {:induction false} LangOfNone(classes: seq<string>)
    requires forall m :: 0 <= m < |classes| ==> !StartsWith(classes[m], LangPrefix)
    ensures LangOf(classes) == []
    decreases |classes|
  {
    if classes != [] {
      LangOfNone(classes[..|classes| - 1]);
    }
  }

  /** A block without a language class is labelled `sql` exactly when the heuristic says so. */
  lemma PreLanguageSql(code: CodeElement)
    requires forall m :: 0 <= m < |code.classes| ==> !StartsWith(code.classes[m], LangPrefix)
    ensures PreLanguage(code) == "sql" <==> IsSql(code.text)
    ensures !IsSql(code.text) ==> PreLanguage(code) == []
  {
    LangOfNone(code.classes);
  }

  /**
   * The uploader's tag scan reads back the fence the converter writes: the lower-cased language
   * when it is made of tag characters, and nothing for an unlabelled block.
   */
  lemma PreFenceTag(code: Option<CodeElement>, preText: string)
    ensures var language := if code.Some? then PreLanguage(code.value) else [];
      var tag := ManagerHelpers.FenceTag(PreMarkdown(code, preText));
      (language == [] ==> tag == None) &&
      ((forall k :: 0 <= k < |language| ==> ManagerHelpers.IsTagChar(language[k])) && language != [] ==>
        tag == Some(Lower(language)))
    ensures var language := if code.Some? then PreLanguage(code.value) else [];
      var line := ManagerHelpers.Fence + language + "\n";
      var md := PreMarkdown(code, preText);
      var tag := ManagerHelpers.FenceTag(line);
      |line| + 2 <= |md| && md[..|line| + 2] == "\n\n" + line &&
      (language == [] ==> tag == None) &&
      ((forall k :: 0 <= k < |language| ==> ManagerHelpers.IsTagChar(language[k])) && language != [] ==>
        tag == Some(Lower(language)))
  {
    var language := if code.Some? then PreLanguage(code.value) else [];
    var raw := if code.Some? then code.value.text else preText;
    var rest := "\n" + Strip(raw) + "\n" + ManagerHelpers.Fence + "\n\n";
    FenceTagBeforeLine(language, rest);
    FenceLineTag(language);
    FencedBlockFirstLines(language, Strip(raw));
  }

  /** A fenced block starts with two line breaks and then the fence line, line break included. */
  lemma FencedBlockFirstLines(language: string, code: string)
    ensures var line := ManagerHelpers.Fence + language + "\n"; var md := FencedBlock(language, code);
      |line| + 2 <= |md| && md[..|line| + 2] == "\n\n" + line
  {
    var line := ManagerHelpers.Fence + language + "\n";
    var tail := code + "\n" + ManagerHelpers.Fence + "\n\n";
    assert FencedBlock(language, code) == ("\n\n" + line) + tail;
  }

  /**
   * The uploader reads a file line by line; the line of the fence the converter writes, with its
   * line break, carries the lower-cased language when that is made of tag characters, and no tag
   * when the block is unlabelled.
   */
  lemma FenceLineTag(language: string)
    ensures var tag := ManagerHelpers.FenceTag(ManagerHelpers.Fence + language + "\n");
      (language == [] ==> tag == None) &&
      ((forall k :: 0 <= k < |language| ==> ManagerHelpers.IsTagChar(language[k])) && language != [] ==>
        tag == Some(Lower(language)))
  {
    var line := ManagerHelpers.Fence + language + "\n";
    if language == [] {
      assert line[0] == '`' && line[3] == '\n';
      assert SkipSpace(line, 0) == 0;
    } else if forall k :: 0 <= k < |language| ==> ManagerHelpers.IsTagChar(language[k]) {
      assert [] + ManagerHelpers.Fence + language + "\n" == line;
      ManagerHelpers.FenceTagOf([], language, "\n");
    }
  }

  /** The tag scan of a fence written after a blank line, with its language, then a line break. */
  lemma {:induction false} FenceTagBeforeLine(language: string, rest: string)
    requires rest != [] && rest[0] == '\n'
    ensures var tag := ManagerHelpers.FenceTag("\n\n" + ManagerHelpers.Fence + language + rest);
      (language == [] ==> tag == None) &&
      ((forall k :: 0 <= k < |language| ==> ManagerHelpers.IsTagChar(language[k])) && language != [] ==>
        tag == Some(Lower(language)))
  {
    if language == [] {
      UnlabelledFence(rest);
    } else if forall k :: 0 <= k < |language| ==> ManagerHelpers.IsTagChar(language[k]) {
      ManagerHelpers.FenceTagOf("\n\n", language, rest);
    }
  }

  /** A fence directly followed by a line break carries no tag. */
  lemma UnlabelledFence(rest: string)
    requires rest != [] && rest[0] == '\n'
    ensures ManagerHelpers.FenceTag("\n\n" + ManagerHelpers.Fence + [] + rest) == None
  {
    var md := "\n\n" + ManagerHelpers.Fence + [] + rest;
    assert md[0] == '\n' && md[1] == '\n' && md[2] == '`' && md[5] == '\n';
    assert SkipSpace(md, 0) == 2;
  }

  // ---------------------------------------------------------------------------------------------
  // postprocess_markdown

  /** The phrases where the article body ends and the page footer begins. */
  const FooterMarkers: seq<string> := ["In the next article,", "## Additional resources", "## See also"]

  /** `text.split(marker)[0].strip()` when the marker occurs; `text` otherwise. */
  function CutAt(t: string, marker: string): string
    requires marker != []
  {
    if Contains(t, marker) then Strip(BeforeFirst(t, marker)) else t
  }

  /** Markers to cut at: none of them is empty. */
  predicate Markers(markers: seq<string>)
  {
    forall i :: 0 <= i < |markers| ==> markers[i] != []
  }

  /** The text after cutting at each of `markers`, in order. */
  function Truncated(text: string, markers: seq<string>): string
    requires Markers(markers)
    decreases |markers|
  {
    if markers == [] then text
    else CutAt(Truncated(text, markers[..|markers| - 1]), markers[|markers| - 1])
  }

  /** A line that strips to nothing. */
  predicate BlankLine(line: string)
  {
    Strip(line) == []
  }

  /** The first position at or after `i` whose line `drop` does not accept, or `|lines|`. */
  function LeadingEnd(lines: seq<string>, drop: string -> bool, i: nat): (e: nat)
    requires i <= |lines|
    ensures i <= e <= |lines| && (e < |lines| ==> !drop(lines[e]))
    ensures forall j :: i <= j < e ==> drop(lines[j])
    decreases |lines| - i
  {
    if i < |lines| && drop(lines[i]) then LeadingEnd(lines, drop, i + 1) else i
  }

  /** The lines after the leading ones that `drop` accepts. */
  function DropLeading(lines: seq<string>, drop: string -> bool): (r: seq<string>)
    ensures |r| <= |lines|
  {
    lines[LeadingEnd(lines, drop, 0)..]
  }

  /** What is left is a suffix that does not start with a dropped line; every line dropped is accepted by `drop`. */
  lemma {:induction false} DropLeadingSpec(lines: seq<string>, drop: string -> bool)
    ensures var r := DropLeading(lines, drop);
      (forall j :: 0 <= j < |r| ==> r[j] == lines[|lines| - |r| + j]) &&
      (forall j :: 0 <= j < |lines| - |r| ==> drop(lines[j])) &&
      (r == [] || !drop(r[0]))
  {
    var e := LeadingEnd(lines, drop, 0);
    assert |lines| - |DropLeading(lines, drop)| == e;
  }

  /** Lines that are navigation chrome, not content. */
  predicate KeepLine(line: string)
  {
    Strip(line) != "Back to top" && Strip(line) != "On this page"
  }

  /** The lines that `keep` accepts, in order. */
  function Filter(lines: seq<string>, keep: string -> bool): seq<string>
  {
    if lines == [] then []
    else Filter(lines[..|lines| - 1], keep) + (if keep(lines[|lines| - 1]) then [lines[|lines| - 1]] else [])
  }

  /** The lines left of `lines` once the leading blank ones are dropped and the chrome is filtered out. */
  function Cleaned(lines: seq<string>): seq<string>
  {
    Filter(DropLeading(lines, BlankLine), KeepLine)
  }

  /** The lines left of the truncated text `t`. */
  function CleanLines(t: string): seq<string>
  {
    Cleaned(SplitLines(t))
  }

  /** The cleaned article. */
  function Postprocessed(text: string): string
  {
    Join(CleanLines(Truncated(text, FooterMarkers)), "\n")
  }

  /** The footer truncation: cut at each marker in turn. */
  method TruncateFooter(text: string) returns (t: string)
    ensures t == Truncated(text, FooterMarkers)
  {
    t := text;
    for n := 0 to |FooterMarkers|
      invariant t == Truncated(text, FooterMarkers[..n])
    {
      var marker := FooterMarkers[n];
      if Contains(t, marker) {
        t := Strip(BeforeFirst(t, marker));
      }
      assert FooterMarkers[..n + 1][..n] == FooterMarkers[..n];
    }
    assert FooterMarkers[..|FooterMarkers|] == FooterMarkers;
  }

  /** The intro cleanup: pop the leading lines that strip to nothing. */
  method PopBlankLines(all: seq<string>) returns (lines: seq<string>)
    ensures lines == DropLeading(all, BlankLine)
  {
    lines := all;
    ghost var k := 0;
    while lines != [] && Strip(lines[0]) == []
      invariant k <= |all| && lines == all[k..]
      invariant LeadingEnd(all, BlankLine, k) == LeadingEnd(all, BlankLine, 0)
      decreases |lines|
    {
      assert BlankLine(all[k]);
      lines := lines[1..];
      k := k + 1;
    }
    assert lines != [] ==> !BlankLine(all[k]);
  }

  /** Keep the lines that are not navigation chrome, in order. */
  method DropChrome(lines: seq<string>) returns (cleaned: seq<string>)
    ensures cleaned == Filter(lines, KeepLine)
  {
    cleaned := [];
    for n := 0 to |lines|
      invariant cleaned == Filter(lines[..n], KeepLine)
    {
      assert lines[..n + 1][..n] == lines[..n];
      if Strip(lines[n]) != "Back to top" && Strip(lines[n]) != "On this page" {
        cleaned := cleaned + [lines[n]];
      }
    }
    assert lines[..|lines|] == lines;
  }

  /** `postprocess_markdown`: truncate the footer, clean up the lines, join them back. */
  method PostprocessMarkdown(text: string) returns (r: string)
    ensures r == Postprocessed(text)
  {
    var t := TruncateFooter(text);
    var lines := PopBlankLines(SplitLines(t));
    var cleaned := DropChrome(lines);
    r := Join(cleaned, "\n");
  }

  /** A text that contains `u` and avoids `m` has `u` avoid `m` too. */
  lemma AvoidsInside(s: string, u: string, m: string)
    requires Contains(s, u) && !Contains(s, m)
    ensures !Contains(u, m)
  {
    if Contains(u, m) {
      ContainsTransitive(s, u, m);
    }
  }

  /** Cutting keeps a piece of the text, and one in which the marker no longer occurs. */
  lemma CutAtSpec(t: string, marker: string)
    requires marker != []
    ensures Contains(t, CutAt(t, marker)) && !Contains(CutAt(t, marker), marker)
  {
    if Contains(t, marker) {
      var b := BeforeFirst(t, marker);
      ContainsAt(t, b, 0);
      StripIsSubstring(b);
      ContainsTransitive(t, b, Strip(b));
      AvoidsInside(b, Strip(b), marker);
    } else {
      ContainsAt(t, t, 0);
    }
  }

  /** After cutting at each marker in turn, none of them occurs, and what is left is a piece of the text. */
  lemma {:induction false} TruncatedAvoids(text: string, markers: seq<string>)
    requires Markers(markers)
    ensures Contains(text, Truncated(text, markers))
    ensures forall i :: 0 <= i < |markers| ==> !Contains(Truncated(text, markers), markers[i])
    decreases |markers|
  {
    if markers == [] {
      ContainsAt(text, text, 0);
    } else {
      var earlier := markers[..|markers| - 1];
      TruncatedAvoids(text, earlier);
      assert forall i :: 0 <= i < |markers| - 1 ==> markers[i] == earlier[i];
      CutStep(text, Truncated(text, earlier), markers);
    }
  }

  /** Cutting at the last marker keeps a piece of the text that avoids every marker, given that `prev` avoided the others. */
  lemma CutStep(text: string, prev: string, markers: seq<string>)
    requires Markers(markers) && markers != [] && Contains(text, prev)
    requires forall i :: 0 <= i < |markers| - 1 ==> !Contains(prev, markers[i])
    ensures var cur := CutAt(prev, markers[|markers| - 1]);
      Contains(text, cur) && forall i :: 0 <= i < |markers| ==> !Contains(cur, markers[i])
  {
    var cur := CutAt(prev, markers[|markers| - 1]);
    CutAtSpec(prev, markers[|markers| - 1]);
    ContainsTransitive(text, prev, cur);
    forall i | 0 <= i < |markers| - 1 ensures !Contains(cur, markers[i]) {
      AvoidsInside(prev, cur, markers[i]);
    }
  }

  /** A pattern without line breaks that no line contains is not in the joined cleaned lines. */
  lemma CleanedAvoids(lines: seq<string>, m: string)
    requires m != [] && (forall k :: 0 <= k < |m| ==> m[k] != '\n')
    requires forall n :: 0 <= n < |lines| ==> !Contains(lines[n], m)
    ensures !Contains(Join(Cleaned(lines), "\n"), m)
  {
    KeptAvoid(lines, BlankLine, KeepLine, m);
    assert Cleaned(lines) == Filter(DropLeading(lines, BlankLine), KeepLine);
    JoinLinesAvoids(Cleaned(lines), m);
  }

  /** Lines that all avoid a pattern still avoid it once some are dropped and others filtered out. */
  lemma {:induction false} KeptAvoid(lines: seq<string>, drop: string -> bool, keep: string -> bool, m: string)
    requires forall n :: 0 <= n < |lines| ==> !Contains(lines[n], m)
    ensures var kept := Filter(DropLeading(lines, drop), keep);
      forall n :: 0 <= n < |kept| ==> !Contains(kept[n], m)
  {
    KeptSubsequence(lines, drop, keep);
  }

  /** The cleaned article contains none of the footer markers. */
  lemma PostprocessedNoFooter(text: string)
    ensures forall i :: 0 <= i < |FooterMarkers| ==> !Contains(Postprocessed(text), FooterMarkers[i])
  {
    var t := Truncated(text, FooterMarkers);
    TruncatedAvoids(text, FooterMarkers);
    var lines := SplitLines(t);
    forall i | 0 <= i < |FooterMarkers| ensures !Contains(Join(Cleaned(lines), "\n"), FooterMarkers[i]) {
      var m := FooterMarkers[i];
      forall n | 0 <= n < |lines| ensures !Contains(lines[n], m) {
        AvoidsInside(t, lines[n], m);
      }
      CleanedAvoids(lines, m);
    }
  }

  /** The positions of the lines `keep` accepts, counted from `base`. */
  function FilterIndices(lines: seq<string>, keep: string -> bool, base: nat): seq<nat>
  {
    if lines == [] then []
    else FilterIndices(lines[..|lines| - 1], keep, base) + (if keep(lines[|lines| - 1]) then [base + |lines| - 1] else [])
  }

  predicate Increasing(idx: seq<nat>)
  {
    forall k, l :: 0 <= k < l < |idx| ==> idx[k] < idx[l]
  }

  /**
   * The kept lines are the input lines at increasing positions, and a position is among them
   * exactly when `keep` accepts its line.
   */
  lemma {:induction false} FilterIndicesSpec(lines: seq<string>, keep: string -> bool, base: nat)
    ensures var idx := FilterIndices(lines, keep, base); var kept := Filter(lines, keep);
      |idx| == |kept| && Increasing(idx) &&
      (forall k :: 0 <= k < |idx| ==> base <= idx[k] < base + |lines| && kept[k] == lines[idx[k] - base]) &&
      (forall j :: 0 <= j < |lines| ==> (base + j in idx <==> keep(lines[j])))
  {
    FilterIndicesPlaces(lines, keep, base);
    FilterIndicesIncreasing(lines, keep, base);
    FilterIndicesMembers(lines, keep, base);
  }

  /** Each position lies in the range of `lines` and holds the kept line of the same rank. */
  lemma {:induction false} FilterIndicesPlaces(lines: seq<string>, keep: string -> bool, base: nat)
    ensures var idx := FilterIndices(lines, keep, base); var kept := Filter(lines, keep);
      |idx| == |kept| &&
      (forall k :: 0 <= k < |idx| ==> base <= idx[k] < base + |lines| && kept[k] == lines[idx[k] - base])
  {
    if lines != [] {
      var init := lines[..|lines| - 1];
      FilterIndicesPlaces(init, keep, base);
      var idx0 := FilterIndices(init, keep, base);
      var kept0 := Filter(init, keep);
      var idx := FilterIndices(lines, keep, base);
      var kept := Filter(lines, keep);
      forall k | 0 <= k < |idx| ensures base <= idx[k] < base + |lines| && kept[k] == lines[idx[k] - base] {
        if k < |idx0| {
          assert idx[k] == idx0[k] && kept[k] == kept0[k];
          assert init[idx0[k] - base] == lines[idx0[k] - base];
        }
      }
    }
  }

  /** The positions grow strictly. */
  lemma {:induction false} FilterIndicesIncreasing(lines: seq<string>, keep: string -> bool, base: nat)
    ensures Increasing(FilterIndices(lines, keep, base))
  {
    if lines != [] {
      var init := lines[..|lines| - 1];
      FilterIndicesIncreasing(init, keep, base);
      FilterIndicesPlaces(init, keep, base);
      var idx0 := FilterIndices(init, keep, base);
      var idx := FilterIndices(lines, keep, base);
      forall k, l | 0 <= k < l < |idx| ensures idx[k] < idx[l] {
        assert idx[k] == idx0[k];
        if l < |idx0| {
          assert idx[l] == idx0[l];
        }
      }
    }
  }

  /** A position is among them exactly when `keep` accepts its line. */
  lemma {:induction false} FilterIndicesMembers(lines: seq<string>, keep: string -> bool, base: nat)
    ensures var idx := FilterIndices(lines, keep, base);
      forall j :: 0 <= j < |lines| ==> (base + j in idx <==> keep(lines[j]))
  {
    if lines != [] {
      var init := lines[..|lines| - 1];
      FilterIndicesMembers(init, keep, base);
      FilterIndicesPlaces(init, keep, base);
      var idx0 := FilterIndices(init, keep, base);
      var idx := FilterIndices(lines, keep, base);
      var last := |lines| - 1;
      assert idx == idx0 + (if keep(lines[last]) then [base + last] else []);
      forall j | 0 <= j < |lines| ensures base + j in idx <==> keep(lines[j]) {
        if j < last {
          assert init[j] == lines[j];
          assert base + last !in idx0;
        } else {
          assert base + last !in idx0;
        }
      }
    }
  }

  /** Where each cleaned line comes from among `lines`. */
  function CleanPositions(lines: seq<string>): seq<nat>
  {
    var dropped := DropLeading(lines, BlankLine);
    FilterIndices(dropped, KeepLine, |lines| - |dropped|)
  }

  /** The cleaned lines are the input lines at increasing positions. */
  lemma CleanedSubsequence(lines: seq<string>)
    ensures var pos := CleanPositions(lines); var cleaned := Cleaned(lines);
      |pos| == |cleaned| && Increasing(pos) &&
      forall k :: 0 <= k < |pos| ==> pos[k] < |lines| && cleaned[k] == lines[pos[k]]
  {
    KeptSubsequence(lines, BlankLine, KeepLine);
  }

  /** The lines kept after the leading ones are dropped are the input lines at increasing positions. */
  lemma {:induction false} KeptSubsequence(lines: seq<string>, drop: string -> bool, keep: string -> bool)
    ensures var dropped := DropLeading(lines, drop);
      var pos := FilterIndices(dropped, keep, |lines| - |dropped|); var kept := Filter(dropped, keep);
      |pos| == |kept| && Increasing(pos) &&
      forall k :: 0 <= k < |pos| ==> pos[k] < |lines| && kept[k] == lines[pos[k]]
  {
    var dropped := DropLeading(lines, drop);
    var base := |lines| - |dropped|;
    var pos := FilterIndices(dropped, keep, base);
    var kept := Filter(dropped, keep);
    DropLeadingSpec(lines, drop);
    FilterIndicesPlaces(dropped, keep, base);
    FilterIndicesIncreasing(dropped, keep, base);
    forall k | 0 <= k < |pos| ensures pos[k] < |lines| && kept[k] == lines[pos[k]] {
      var j := pos[k] - base;
      assert kept[k] == dropped[j];
      assert dropped[j] == lines[base + j];
    }
  }

  /**
   * The leading blank lines are skipped, and after them a line is kept exactly when it does not
   * strip to `Back to top` or `On this page`.
   */
  lemma CleanedComplete(lines: seq<string>)
    ensures var pos := CleanPositions(lines); var skipped := |lines| - |DropLeading(lines, BlankLine)|;
      (forall j :: 0 <= j < skipped ==> BlankLine(lines[j])) &&
      (forall j :: 0 <= j < |lines| && j >= skipped ==> (j in pos <==> KeepLine(lines[j])))
  {
    KeptComplete(lines, BlankLine, KeepLine);
  }

  /** The leading lines `drop` accepts are skipped; after them a line is kept exactly when `keep` accepts it. */
  lemma {:induction false} KeptComplete(lines: seq<string>, drop: string -> bool, keep: string -> bool)
    ensures var dropped := DropLeading(lines, drop); var skipped := |lines| - |dropped|;
      var pos := FilterIndices(dropped, keep, skipped);
      (forall j :: 0 <= j < skipped ==> drop(lines[j])) &&
      (forall j :: 0 <= j < |lines| && j >= skipped ==> (j in pos <==> keep(lines[j])))
  {
    var dropped := DropLeading(lines, drop);
    DropLeadingSpec(lines, drop);
    var skipped := |lines| - |dropped|;
    FilterIndicesSpec(dropped, keep, skipped);
    forall j | 0 <= j < |lines| && j >= skipped ensures j in FilterIndices(dropped, keep, skipped) <==> keep(lines[j]) {
      assert dropped[j - skipped] == lines[j];
      assert skipped + (j - skipped) == j;
    }
  }

  /** No cleaned line is navigation chrome. */
  lemma CleanedNoChrome(lines: seq<string>)
    ensures forall k :: 0 <= k < |Cleaned(lines)| ==> KeepLine(Cleaned(lines)[k])
  {
    var d := DropLeading(lines, BlankLine);
    var keep: string -> bool := KeepLine;
    KeptAccepted(d, keep);
    assert Cleaned(lines) == Filter(d, keep);
    forall k | 0 <= k < |Filter(d, keep)| ensures KeepLine(Filter(d, keep)[k]) {
      assert keep(Filter(d, keep)[k]);
    }
  }

  /** Every line the filter keeps is one `keep` accepts. */
  lemma {:induction false} KeptAccepted(lines: seq<string>, keep: string -> bool)
    ensures var kept := Filter(lines, keep);
      forall k :: 0 <= k < |kept| ==> keep(kept[k])
  {
    FilterIndicesSpec(lines, keep, 0);
    var idx := FilterIndices(lines, keep, 0);
    forall k | 0 <= k < |Filter(lines, keep)| ensures keep(Filter(lines, keep)[k]) {
      assert idx[k] in idx && idx[k] == 0 + idx[k];
    }
  }
}
