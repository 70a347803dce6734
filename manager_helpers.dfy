/**
 * The small pure helpers of the Notion manager: the natural sort key used to order a folder's
 * entries, the fenced-code tag matcher of the tag scan, and the parsing of the comma-separated,
 * 1-based selection typed at the cleanup prompt.
 */
module ManagerHelpers {
  import opened Wrappers
  import opened Text

  // ---------------------------------------------------------------------------------------------
  // Decimal numbers

  function DigitValue(c: char): nat
    requires IsDigit(c)
  {
    c as int - '0' as int
  }

  function DigitChar(d: nat): (c: char)
    requires d < 10
    ensures IsDigit(c) && DigitValue(c) == d
  {
    ('0' as int + d) as char
  }

  predicate AllDigits(s: string)
  {
    forall k :: 0 <= k < |s| ==> IsDigit(s[k])
  }

  /** `int(s)` of a string of ASCII digits. */
  function DigitsValue(s: string): nat
    requires AllDigits(s)
  {
    if s == [] then 0 else DigitsValue(s[..|s| - 1]) * 10 + DigitValue(s[|s| - 1])
  }

  /** `str(n)`: the decimal digits of `n`, without leading zeros. */
  function Decimal(n: nat): (s: string)
    ensures s != [] && AllDigits(s)
  {
    if n < 10 then [DigitChar(n)] else Decimal(n / 10) + [DigitChar(n % 10)]
  }

  /** Reading back the digits of `n` gives `n`. */
  lemma {:induction false} DecimalRoundTrip(n: nat)
    ensures DigitsValue(Decimal(n)) == n
  {
    if n >= 10 {
      DecimalRoundTrip(n / 10);
      var s := Decimal(n);
      assert s[..|s| - 1] == Decimal(n / 10);
    }
  }

  // ---------------------------------------------------------------------------------------------
  // natural_sort_key

  /** The first digit at or after `i`, or `|s|`. */
  function NextDigit(s: string, i: nat): (j: nat)
    requires i <= |s|
    ensures i <= j <= |s| && (j < |s| ==> IsDigit(s[j]))
    ensures forall m :: i <= m < j ==> !IsDigit(s[m])
    decreases |s| - i
  {
    if i == |s| || IsDigit(s[i]) then i else NextDigit(s, i + 1)
  }

  /** The first non-digit at or after `i`, or `|s|`. */
  function DigitRunEnd(s: string, i: nat): (j: nat)
    requires i <= |s|
    ensures i <= j <= |s| && (j < |s| ==> !IsDigit(s[j]))
    ensures forall m :: i <= m < j ==> IsDigit(s[m])
    decreases |s| - i
  {
    if i < |s| && IsDigit(s[i]) then DigitRunEnd(s, i + 1) else i
  }

  /** `re.split(r'(\d+)', s[i..])`: text, digits, text, ..., text; the text pieces may be empty. */
  function SegmentsFrom(s: string, i: nat): seq<string>
    requires i <= |s|
    decreases |s| - i
  {
    var a := NextDigit(s, i);
    if a == |s| then [s[i..]]
    else
      var b := DigitRunEnd(s, a);
      [s[i..a], s[a..b]] + SegmentsFrom(s, b)
  }

  function Segments(s: string): seq<string>
  {
    SegmentsFrom(s, 0)
  }

  /** One part of a sort key: a number for a run of digits, a lower-cased string otherwise. */
  datatype KeyPart = Num(n: nat) | Str(s: string)

  /** `int(text) if text.isdigit() else text.lower()`. */
  function KeyPartOf(text: string): KeyPart
  {
    if text != [] && AllDigits(text) then Num(DigitsValue(text)) else Str(Lower(text))
  }

  /** `natural_sort_key(s)`. */
  function NaturalSortKey(s: string): seq<KeyPart>
  {
    var segs := Segments(s);
    seq(|segs|, n requires 0 <= n < |segs| => KeyPartOf(segs[n]))
  }

  /** Text pieces sit at even positions and hold no digit; digit runs sit at odd positions. */
  predicate Alternating(segs: seq<string>)
  {
    |segs| % 2 == 1 &&
    (forall n :: 0 <= n < |segs| && n % 2 == 0 ==> forall k :: 0 <= k < |segs[n]| ==> !IsDigit(segs[n][k])) &&
    (forall n :: 0 <= n < |segs| && n % 2 == 1 ==> segs[n] != [] && AllDigits(segs[n]))
  }

  lemma {:induction false} SegmentsFromAlternating(s: string, i: nat)
    requires i <= |s|
    ensures Alternating(SegmentsFrom(s, i))
    decreases |s| - i
  {
    var a := NextDigit(s, i);
    if a < |s| {
      var b := DigitRunEnd(s, a);
      var rest := SegmentsFrom(s, b);
      SegmentsFromAlternating(s, b);
      var segs := SegmentsFrom(s, i);
      assert segs == [s[i..a], s[a..b]] + rest;
      forall n | 0 <= n < |segs| && n % 2 == 0 ensures forall k :: 0 <= k < |segs[n]| ==> !IsDigit(segs[n][k]) {
        if n >= 2 { assert segs[n] == rest[n - 2]; }
      }
      forall n | 0 <= n < |segs| && n % 2 == 1 ensures segs[n] != [] && AllDigits(segs[n]) {
        if n >= 2 { assert segs[n] == rest[n - 2]; }
      }
    }
  }

  lemma {:induction false} SegmentsFromJoin(s: string, i: nat)
    requires i <= |s|
    ensures Join(SegmentsFrom(s, i), []) == s[i..]
    decreases |s| - i
  {
    var a := NextDigit(s, i);
    if a < |s| {
      var b := DigitRunEnd(s, a);
      var rest := SegmentsFrom(s, b);
      SegmentsFromJoin(s, b);
      assert SegmentsFrom(s, i) == [s[i..a], s[a..b]] + rest;
      JoinPair(s[i..a], s[a..b], rest);
      SuffixSplit(s, i, a, b);
    }
  }

  /** A suffix is its pieces between three cut points. */
  lemma {:induction false} SuffixSplit(s: string, i: nat, a: nat, b: nat)
    requires i <= a <= b <= |s|
    ensures s[i..] == s[i..a] + s[a..b] + s[b..]
  {
  }

  /** Concatenating two pieces in front of the others puts them in front of the concatenation. */
  lemma {:induction false} JoinPair(p: string, q: string, rest: seq<string>)
    ensures Join([p, q] + rest, []) == p + q + Join(rest, [])
  {
    var parts := [p, q] + rest;
    assert parts[1..] == [q] + rest;
    assert parts[1..][1..] == rest;
    if rest == [] {
      assert Join(parts[1..], []) == q;
    } else {
      assert Join(parts[1..], []) == q + Join(rest, []);
    }
  }

  /**
   * The pieces alternate text and digit runs, starting and ending with text, and put back
   * together they give the input.
   */
  lemma SegmentsShape(s: string)
    ensures Alternating(Segments(s))
    ensures Join(Segments(s), []) == s
  {
    SegmentsFromAlternating(s, 0);
    SegmentsFromJoin(s, 0);
  }

  /**
   * The key has an odd number of parts: lower-cased text at even positions and the value of a
   * digit run at odd positions, so two keys only ever compare a number with a number and a
   * string with a string.
   */
  lemma {:induction false} NaturalSortKeyShape(s: string)
    ensures var key := NaturalSortKey(s); var segs := Segments(s);
      |key| == |segs| && |key| % 2 == 1 &&
      (forall n :: 0 <= n < |key| && n % 2 == 0 ==> key[n] == Str(Lower(segs[n]))) &&
      (forall n :: 0 <= n < |key| && n % 2 == 1 ==>
        segs[n] != [] && AllDigits(segs[n]) && key[n] == Num(DigitsValue(segs[n])))
  {
    SegmentsShape(s);
    var segs := Segments(s);
    forall n | 0 <= n < |segs| && n % 2 == 0 ensures KeyPartOf(segs[n]) == Str(Lower(segs[n])) {
      if segs[n] != [] { assert !IsDigit(segs[n][0]); }
    }
  }

  /** Keys of any two names agree on the kind of part at every position both have. */
  lemma KeysComparable(s: string, t: string, n: nat)
    requires n < |NaturalSortKey(s)| && n < |NaturalSortKey(t)|
    ensures NaturalSortKey(s)[n].Num? == NaturalSortKey(t)[n].Num?
  {
    NaturalSortKeyShape(s);
    NaturalSortKeyShape(t);
  }

  /** `Ch10.md` splits into the text `Ch`, the number 10 and the text `.md`. */
  lemma NaturalSortKeyExample()
    ensures NaturalSortKey("Ch10.md") == [Str("ch"), Num(10), Str(".md")]
  {
    var s := "Ch10.md";
    assert NextDigit(s, 0) == 2;
    assert DigitRunEnd(s, 2) == 4;
    assert NextDigit(s, 4) == 7;
    assert s[0..2] == "Ch" && s[2..4] == "10" && s[4..] == ".md";
    assert SegmentsFrom(s, 4) == [".md"];
    assert SegmentsFrom(s, 0) == ["Ch", "10"] + SegmentsFrom(s, 4);
    assert Segments(s) == ["Ch", "10", ".md"];
    assert DigitsValue("10") == 10 by { assert "10"[..1] == "1"; }
    assert Lower("Ch") == "ch" && Lower(".md") == ".md";
    assert KeyPartOf("Ch") == Str("ch") by { assert !IsDigit('C'); }
    assert KeyPartOf(".md") == Str(".md") by { assert !IsDigit('.'); }
    assert KeyPartOf("10") == Num(10);
  }

  // ---------------------------------------------------------------------------------------------
  // The tag scan: re.search(r"^\s*```([a-zA-Z0-9#\+\-]+)", line).group(1).lower()

  /** The characters of the tag group: ASCII letters and digits, `#`, `+` and `-`. */
  predicate IsTagChar(c: char)
  {
    'a' <= c <= 'z' || 'A' <= c <= 'Z' || IsDigit(c) || c == '#' || c == '+' || c == '-'
  }

  /** The first index at or after `i` that is not a tag character, or `|s|`. */
  function TagEnd(s: string, i: nat): (j: nat)
    requires i <= |s|
    ensures i <= j <= |s| && (j < |s| ==> !IsTagChar(s[j]))
    ensures forall m :: i <= m < j ==> IsTagChar(s[m])
    decreases |s| - i
  {
    if i < |s| && IsTagChar(s[i]) then TagEnd(s, i + 1) else i
  }

  const Fence := "```"

  /**
   * The lower-cased language tag of a line that, after leading whitespace, opens a fence with at
   * least one tag character; `None` when the pattern does not match.
   */
  function FenceTag(line: string): Option<string>
  {
    var a := SkipSpace(line, 0);
    if a + 3 < |line| && line[a..a + 3] == Fence && IsTagChar(line[a + 3]) then
      Some(Lower(line[a + 3..TagEnd(line, a + 3)]))
    else None
  }

  /** A matched tag is non-empty and made of lower-case letters, digits, `#`, `+` and `-`. */
  lemma FenceTagChars(line: string)
    requires FenceTag(line).Some?
    ensures var t := FenceTag(line).value;
      t != [] && forall k :: 0 <= k < |t| ==> IsTagChar(t[k]) && !('A' <= t[k] <= 'Z')
  {
  }

  /**
   * Whitespace, a fence, a run of tag characters and anything that does not continue the run:
   * the match is exactly that run, lower-cased.
   */
  lemma {:induction false} FenceTagOf(ws: string, tag: string, rest: string)
    requires Blank(ws) && tag != [] && forall k :: 0 <= k < |tag| ==> IsTagChar(tag[k])
    requires rest == [] || !IsTagChar(rest[0])
    ensures FenceTag(ws + Fence + tag + rest) == Some(Lower(tag))
  {
    var line := ws + Fence + tag + rest;
    var a := |ws|;
    assert forall m :: 0 <= m < a ==> line[m] == ws[m];
    assert line[a] == '`';
    assert SkipSpace(line, 0) == a;
    assert line[a..a + 3] == Fence;
    assert forall m :: a + 3 <= m < a + 3 + |tag| ==> line[m] == tag[m - a - 3];
    assert a + 3 + |tag| < |line| ==> line[a + 3 + |tag|] == rest[0];
    assert TagEnd(line, a + 3) == a + 3 + |tag|;
    assert line[a + 3..a + 3 + |tag|] == tag;
  }

  /** A line whose first non-blank character is not a backquote has no tag. */
  lemma FenceTagNeedsFence(line: string)
    requires SkipSpace(line, 0) < |line| && line[SkipSpace(line, 0)] != '`'
    ensures FenceTag(line) == None
  {
  }

  // ---------------------------------------------------------------------------------------------
  // The selection at the cleanup prompt

  /** An optional sign followed by at least one digit, and nothing else. */
  function SignedDigits(t: string): Option<int>
  {
    var body := if t != [] && (t[0] == '-' || t[0] == '+') then t[1..] else t;
    if body == [] || !AllDigits(body) then None
    else if t[0] == '-' then Some(-(DigitsValue(body) as int))
    else Some(DigitsValue(body))
  }

  /** Python's `int(x)` on ASCII: optional surrounding whitespace, an optional sign, then digits. */
  function ParseInt(x: string): Option<int>
  {
    SignedDigits(Strip(x))
  }

  /** A run of digits, bare or after `-`, has no surrounding whitespace to strip. */
  lemma StripDigits(d: string)
    requires d != [] && AllDigits(d)
    ensures Strip(d) == d && Strip("-" + d) == "-" + d
  {
    assert IsDigit(d[0]) && IsDigit(d[|d| - 1]);
    StripUnchanged(d);
    var m := "-" + d;
    assert m[0] == '-' && m[|m| - 1] == d[|d| - 1];
    StripUnchanged(m);
  }

  lemma SignedDigitsOf(d: string)
    requires d != [] && AllDigits(d)
    ensures SignedDigits(d) == Some(DigitsValue(d) as int)
    ensures SignedDigits("-" + d) == Some(-(DigitsValue(d) as int))
  {
    assert IsDigit(d[0]);
    var m := "-" + d;
    assert m[1..] == d;
  }

  /** A run of digits parses to its value, and with a leading `-` to the negated value. */
  lemma ParseIntOfDigits(d: string)
    requires d != [] && AllDigits(d)
    ensures ParseInt(d) == Some(DigitsValue(d) as int)
    ensures ParseInt("-" + d) == Some(-(DigitsValue(d) as int))
  {
    StripDigits(d);
    SignedDigitsOf(d);
  }

  /**
   * A run of digits with an optional `+` or `-` in front and whitespace on either side parses to
   * its value, negated after `-`: the pieces of a selection typed as `1, 3`.
   */
  lemma ParseIntPadded(pre: string, sign: string, d: string, post: string)
    requires Blank(pre) && Blank(post) && d != [] && AllDigits(d)
    requires sign == [] || sign == "+" || sign == "-"
    ensures ParseInt(pre + sign + d + post) ==
      Some(if sign == "-" then -(DigitsValue(d) as int) else DigitsValue(d) as int)
  {
    var core := sign + d;
    assert pre + sign + d + post == pre + core + post;
    SignedCoreEnds(sign, d);
    StripPadded(pre, core, post);
    SignedDigitsOfSign(sign, d);
  }

  /** A sign and a digit run neither start nor end with whitespace. */
  lemma SignedCoreEnds(sign: string, d: string)
    requires d != [] && AllDigits(d)
    requires sign == [] || sign == "+" || sign == "-"
    ensures var core := sign + d; core != [] && !IsSpace(core[0]) && !IsSpace(core[|core| - 1])
  {
    var core := sign + d;
    assert IsDigit(d[0]) && IsDigit(d[|d| - 1]);
    assert core[|core| - 1] == d[|d| - 1];
    if sign == [] { assert core[0] == d[0]; }
  }

  /** A digit run after no sign, `+` or `-` reads as its value, negated after `-`. */
  lemma SignedDigitsOfSign(sign: string, d: string)
    requires d != [] && AllDigits(d)
    requires sign == [] || sign == "+" || sign == "-"
    ensures SignedDigits(sign + d) ==
      Some(if sign == "-" then -(DigitsValue(d) as int) else DigitsValue(d) as int)
  {
    SignedDigitsOf(d);
    if sign == [] {
      assert sign + d == d;
    } else if sign == "+" {
      var m := sign + d;
      assert m[0] == '+' && m[1..] == d;
    }
  }

  /** `str(n)` parses back to `n`. */
  lemma ParseIntRoundTrip(n: nat)
    ensures ParseInt(Decimal(n)) == Some(n)
  {
    DecimalRoundTrip(n);
    ParseIntOfDigits(Decimal(n));
  }

  /** `[int(x) - 1 for x in parts]`, or `None` at the first part `int` rejects. */
  function ZeroBased(parts: seq<string>): (r: Option<seq<int>>)
    ensures r.Some? ==> |r.value| == |parts|
    ensures r.Some? ==> forall n :: 0 <= n < |parts| ==>
      ParseInt(parts[n]).Some? && r.value[n] == ParseInt(parts[n]).value - 1
  {
    if parts == [] then Some([])
    else
      match (ParseInt(parts[0]), ZeroBased(parts[1..]))
      case (Some(v), Some(rest)) => Some([v - 1] + rest)
      case _ => None
  }

  /** `[items[i] for i in idxs if 0 <= i < len(items)]`. */
  function KeepInRange<T>(items: seq<T>, idxs: seq<int>): seq<T>
  {
    if idxs == [] then []
    else (if 0 <= idxs[0] < |items| then [items[idxs[0]]] else []) + KeepInRange(items, idxs[1..])
  }

  /** What the prompt answer `sel` selects: everything for `ALL`, `None` for "Invalid input". */
  function Selection<T>(items: seq<T>, sel: string): Option<seq<T>>
  {
    if Upper(sel) == "ALL" then Some(items)
    else
      match ZeroBased(SplitOn(sel, ','))
      case Some(idxs) => Some(KeepInRange(items, idxs))
      case None => None
  }

  /** The indices that pass the range test, in order. */
  function InRange(idxs: seq<int>, len: nat): (r: seq<nat>)
    ensures forall n :: 0 <= n < |r| ==> r[n] < len
  {
    if idxs == [] then []
    else (if 0 <= idxs[0] < len then [idxs[0] as nat] else []) + InRange(idxs[1..], len)
  }

  /** An index is kept exactly when it is in range; out-of-range ones (including `0` and negatives) are dropped. */
  lemma {:induction false} InRangeMembers(idxs: seq<int>, len: nat)
    ensures forall x :: x in InRange(idxs, len) <==> x in idxs && 0 <= x < len
  {
    if idxs != [] {
      InRangeMembers(idxs[1..], len);
      assert idxs == [idxs[0]] + idxs[1..];
    }
  }

  /** The kept items are the items at the in-range indices, in the order the indices were typed. */
  lemma {:induction false} KeepInRangeSpec<T>(items: seq<T>, idxs: seq<int>)
    ensures var r := InRange(idxs, |items|);
      |KeepInRange(items, idxs)| == |r| && forall n :: 0 <= n < |r| ==> KeepInRange(items, idxs)[n] == items[r[n]]
  {
    if idxs != [] {
      KeepInRangeSpec(items, idxs[1..]);
    }
  }

  /** Splitting a comma-joined list of comma-free pieces gives the pieces back. */
  lemma {:induction false} SplitOnOfJoin(parts: seq<string>, c: char)
    requires parts != [] && forall n :: 0 <= n < |parts| ==> c !in parts[n]
    ensures SplitOn(Join(parts, [c]), c) == parts
  {
    SplitPiece(parts[0], c);
    if |parts| == 1 {
      assert SplitOn(parts[0], c) == [parts[0]];
    } else {
      var rest := parts[1..];
      SplitOnOfJoin(rest, c);
      assert Join(parts, [c]) == parts[0] + ([c] + Join(rest, [c]));
      SplitAfterPiece(parts[0], c, Join(rest, [c]));
    }
  }

  lemma {:induction false} SplitPiece(p: string, c: char)
    requires c !in p
    ensures SplitOn(p, c) == [p]
    decreases |p|
  {
    if p != [] {
      SplitPiece(p[1..], c);
      assert [p[0]] + p[1..] == p;
    }
  }

  /** A comma-free piece followed by a comma: the piece, then the pieces of what follows. */
  lemma {:induction false} SplitAfterPiece(p: string, c: char, t: string)
    requires c !in p
    ensures SplitOn(p + ([c] + t), c) == [p] + SplitOn(t, c)
    decreases |p|
  {
    if p == [] {
      assert p + ([c] + t) == [c] + t;
      assert ([c] + t)[1..] == t;
    } else {
      SplitAfterPiece(p[1..], c, t);
      assert (p + ([c] + t))[1..] == p[1..] + ([c] + t);
      assert [p[0]] + p[1..] == p;
    }
  }

  lemma JoinFirst(parts: seq<string>, sep: string)
    requires parts != [] && parts[0] != []
    ensures Join(parts, sep) != [] && Join(parts, sep)[0] == parts[0][0]
  {
  }

  /** The decimals of `ns`. */
  function Decimals(ns: seq<nat>): (ds: seq<string>)
    ensures |ds| == |ns| && forall n :: 0 <= n < |ns| ==> ds[n] == Decimal(ns[n])
  {
    if ns == [] then [] else [Decimal(ns[0])] + Decimals(ns[1..])
  }

  /** The 0-based positions of the 1-based numbers `ns`. */
  function Shifted(ns: seq<int>): (r: seq<int>)
    ensures |r| == |ns| && forall n :: 0 <= n < |ns| ==> r[n] == ns[n] - 1
  {
    if ns == [] then [] else [ns[0] - 1] + Shifted(ns[1..])
  }

  /** A first part that parses in front of parts that parse. */
  lemma {:induction false} ZeroBasedCons(parts: seq<string>, v: int, rest: seq<int>)
    requires parts != [] && ParseInt(parts[0]) == Some(v) && ZeroBased(parts[1..]) == Some(rest)
    ensures ZeroBased(parts) == Some([v - 1] + rest)
  {
  }

  /** Some piece is not an integer. */
  predicate HasBadPart(parts: seq<string>)
  {
    exists n :: 0 <= n < |parts| && ParseInt(parts[n]).None?
  }

  /** The conversion fails exactly when some part is not an integer. */
  lemma {:induction false} ZeroBasedFails(parts: seq<string>)
    ensures ZeroBased(parts).None? <==> HasBadPart(parts)
  {
    if parts != [] {
      ZeroBasedFails(parts[1..]);
      if ZeroBased(parts[1..]).None? {
        var n :| 0 <= n < |parts| - 1 && ParseInt(parts[1..][n]).None?;
        assert ParseInt(parts[n + 1]).None?;
      }
      if exists n :: 0 <= n < |parts| && ParseInt(parts[n]).None? {
        var n :| 0 <= n < |parts| && ParseInt(parts[n]).None?;
        if n > 0 { assert ParseInt(parts[1..][n - 1]).None?; }
      }
    }
  }

  /** Any answer other than `ALL` with a comma-separated piece that is not an integer is rejected. */
  lemma SelectionRejects<T>(items: seq<T>, sel: string)
    requires Upper(sel) != "ALL"
    ensures Selection(items, sel).None? <==> HasBadPart(SplitOn(sel, ','))
  {
    var parts := SplitOn(sel, ',');
    ZeroBasedFails(parts);
    assert Selection(items, sel).None? <==> ZeroBased(parts).None?;
  }

  /** The decimals of `ns` convert to the 0-based positions of `ns`. */
  lemma {:induction false} ZeroBasedOfDecimals(ns: seq<nat>)
    ensures ZeroBased(Decimals(ns)) == Some(Shifted(ns))
  {
    if ns != [] {
      ZeroBasedOfDecimals(ns[1..]);
      ParseIntRoundTrip(ns[0]);
      var ds := Decimals(ns);
      assert ds[0] == Decimal(ns[0]);
      assert ds[1..] == Decimals(ns[1..]);
      ZeroBasedCons(ds, ns[0], Shifted(ns[1..]));
      assert Shifted(ns) == [ns[0] - 1] + Shifted(ns[1..]);
    }
  }

  /**
   * Typing the 1-based numbers `ns` separated by commas selects the item each one names, in the
   * order typed, and silently skips numbers beyond the list and `0`.
   */
  lemma {:induction false} SelectionOfNumbers<T>(items: seq<T>, ns: seq<nat>)
    requires ns != []
    ensures Selection(items, Join(Decimals(ns), ",")) == Some(KeepInRange(items, Shifted(ns)))
  {
    var sel := Join(Decimals(ns), ",");
    forall n | 0 <= n < |ns| ensures ',' !in Decimals(ns)[n] {
      assert AllDigits(Decimal(ns[n]));
    }
    SplitOnOfJoin(Decimals(ns), ',');
    ZeroBasedOfDecimals(ns);
    JoinFirst(Decimals(ns), ",");
    assert IsDigit(sel[0]);
    assert Upper(sel)[0] != 'A';
  }
}
