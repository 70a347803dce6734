/**
 * The parts of Python's `str` that the converter and the scraper rely on:
 * whitespace, `strip`, `split`, `splitlines`, `join`, `replace`, `in`,
 * `startswith`, and ASCII case mapping.
 */
module Text {

  /** Whitespace as Python's `str.isspace()` (and so `split()`, `strip()` and the regex class `\s`) sees it. */
  predicate IsSpace(c: char)
  {
    c == ' ' || '\t' <= c <= '\r' || '\U{1c}' <= c <= '\U{1f}' || c == '\U{85}' || c == '\U{a0}'
    || c == '\U{1680}' || '\U{2000}' <= c <= '\U{200a}' || c == '\U{2028}' || c == '\U{2029}'
    || c == '\U{202f}' || c == '\U{205f}' || c == '\U{3000}'
  }

  /** The line boundaries of Python's `str.splitlines()`. */
  predicate IsLineBreak(c: char)
  {
    c == '\n' || c == '\r' || c == '\U{0b}' || c == '\U{0c}' || '\U{1c}' <= c <= '\U{1e}'
    || c == '\U{85}' || c == '\U{2028}' || c == '\U{2029}'
  }

  predicate IsDigit(c: char)
  {
    '0' <= c <= '9'
  }

  predicate NoSpace(s: string)
  {
    forall k :: 0 <= k < |s| ==> !IsSpace(s[k])
  }

  /** Every character is whitespace (so `s.strip()` is empty and `s.split()` has no words). */
  predicate Blank(s: string)
  {
    forall k :: 0 <= k < |s| ==> IsSpace(s[k])
  }

  predicate NoLineBreak(s: string)
  {
    forall k :: 0 <= k < |s| ==> !IsLineBreak(s[k])
  }

  function LowerChar(c: char): char
  {
    if 'A' <= c <= 'Z' then (c as int + 32) as char else c
  }

  function UpperChar(c: char): char
  {
    if 'a' <= c <= 'z' then (c as int - 32) as char else c
  }

  /** `s.lower()`, restricted to ASCII letters. */
  function Lower(s: string): string
  {
    seq(|s|, k requires 0 <= k < |s| => LowerChar(s[k]))
  }

  /** `s.upper()`, restricted to ASCII letters. */
  function Upper(s: string): string
  {
    seq(|s|, k requires 0 <= k < |s| => UpperChar(s[k]))
  }

  lemma {:induction false} UpperConcat(a: string, b: string)
    ensures Upper(a + b) == Upper(a) + Upper(b)
  {
    assert |Upper(a + b)| == |Upper(a) + Upper(b)|;
    forall k | 0 <= k < |a + b| ensures Upper(a + b)[k] == (Upper(a) + Upper(b))[k] {
      if k < |a| { assert (a + b)[k] == a[k]; } else { assert (a + b)[k] == b[k - |a|]; }
    }
  }

  predicate StartsWith(s: string, p: string)
  {
    |p| <= |s| && s[..|p|] == p
  }

  /** `t` occurs in `s` starting at index `k`. */
  predicate OccursAt(s: string, t: string, k: int)
  {
    0 <= k <= |s| - |t| && s[k..k + |t|] == t
  }

  /** Python's `t in s`. */
  predicate Contains(s: string, t: string)
  {
    exists k :: 0 <= k <= |s| - |t| && OccursAt(s, t, k)
  }

  lemma {:induction false} ContainsAt(s: string, t: string, k: int)
    requires OccursAt(s, t, k)
    ensures Contains(s, t)
  {
  }

  /** A substring of a substring is a substring. */
  lemma {:induction false} ContainsTransitive(s: string, u: string, t: string)
    requires Contains(s, u) && Contains(u, t)
    ensures Contains(s, t)
  {
    var a :| 0 <= a <= |s| - |u| && OccursAt(s, u, a);
    var b :| 0 <= b <= |u| - |t| && OccursAt(u, t, b);
    assert forall i :: 0 <= i < |t| ==> s[a + b + i] == u[b + i] == t[i];
    assert s[a + b..a + b + |t|] == t;
    ContainsAt(s, t, a + b);
  }

  /** Appending to a string keeps every substring it had. */
  lemma {:induction false} ContainsAppend(s: string, u: string, t: string)
    requires Contains(s, t)
    ensures Contains(s + u, t)
  {
    var a :| 0 <= a <= |s| - |t| && OccursAt(s, t, a);
    assert (s + u)[a..a + |t|] == s[a..a + |t|];
    ContainsAt(s + u, t, a);
  }

  /** A pattern that is not a prefix of `s` and whose first character appears nowhere else in `s` does not occur in it. */
  lemma {:induction false} AbsentByFirstChar(s: string, t: string)
    requires t != [] && !StartsWith(s, t)
    requires forall k :: 0 < k < |s| ==> s[k] != t[0]
    ensures !Contains(s, t)
  {
    forall k | 0 <= k <= |s| - |t| ensures !OccursAt(s, t, k) {
      if k > 0 {
        assert s[k..k + |t|][0] == s[k];
      }
    }
  }

  /** A pattern without `c` that occurs in neither `a` nor `b` does not occur in `a + [c] + b`. */
  lemma {:induction false} AvoidsAcross(a: string, c: char, b: string, m: string)
    requires !Contains(a, m) && !Contains(b, m)
    requires forall k :: 0 <= k < |m| ==> m[k] != c
    ensures !Contains(a + [c] + b, m)
  {
    var s := a + [c] + b;
    forall k | 0 <= k <= |s| - |m| ensures !OccursAt(s, m, k) {
      if k + |m| <= |a| {
        assert a[k..k + |m|] == s[k..k + |m|];
        assert !OccursAt(a, m, k);
      } else if k > |a| {
        assert b[k - |a| - 1..k - |a| - 1 + |m|] == s[k..k + |m|];
        assert !OccursAt(b, m, k - |a| - 1);
      } else {
        assert s[k..k + |m|][|a| - k] == c;
      }
    }
  }

  /** The suffix left after removing leading whitespace. */
  function TrimLeft(s: string): (r: string)
    ensures |r| <= |s| && (r == [] || !IsSpace(r[0]))
  {
    s[SkipSpace(s, 0)..]
  }

  /** Everything `TrimLeft` removes is whitespace. */
  lemma {:induction false} TrimLeftRemovesSpace(s: string)
    ensures forall k :: 0 <= k < |s| - |TrimLeft(s)| ==> IsSpace(s[k])
  {
    assert |s| - |TrimLeft(s)| == SkipSpace(s, 0);
  }

  /** The end of `s[..j]` once its trailing whitespace is removed. */
  function TrimEnd(s: string, j: nat): (e: nat)
    requires j <= |s|
    ensures e <= j && (e > 0 ==> !IsSpace(s[e - 1]))
    ensures forall m :: e <= m < j ==> IsSpace(s[m])
  {
    if j > 0 && IsSpace(s[j - 1]) then TrimEnd(s, j - 1) else j
  }

  /** The prefix left after removing trailing whitespace. */
  function TrimRight(s: string): (r: string)
    ensures |r| <= |s| && (r == [] || !IsSpace(r[|r| - 1]))
  {
    s[..TrimEnd(s, |s|)]
  }

  /** Everything `TrimRight` removes is whitespace. */
  lemma {:induction false} TrimRightRemovesSpace(s: string)
    ensures forall k :: |TrimRight(s)| <= k < |s| ==> IsSpace(s[k])
  {
    assert |TrimRight(s)| == TrimEnd(s, |s|);
  }

  /** Python's `s.strip()`. */
  function Strip(s: string): string
  {
    TrimRight(TrimLeft(s))
  }

  lemma {:induction false} StripIsSubstring(s: string)
    ensures Contains(s, Strip(s))
  {
    var a := SkipSpace(s, 0);
    var l := TrimLeft(s);
    var r := TrimRight(l);
    assert r == s[a..][..|r|] == s[a..a + |r|];
    ContainsAt(s, r, a);
  }

  /** `Strip(s)` is empty exactly when every character of `s` is whitespace. */
  lemma {:induction false} StripEmpty(s: string)
    ensures Strip(s) == [] <==> Blank(s)
  {
    var l := TrimLeft(s);
    TrimLeftRemovesSpace(s);
    if l != [] {
      assert l[0] == s[|s| - |l|];
      TrimRightRemovesSpace(l);
      assert TrimRight(l) != [];
    }
  }

  /** A string that neither starts nor ends with whitespace strips to itself. */
  lemma {:induction false} StripUnchanged(s: string)
    requires s == [] || (!IsSpace(s[0]) && !IsSpace(s[|s| - 1]))
    ensures Strip(s) == s
  {
  }

  /** The last non-whitespace position before `j`, plus one, is the only one `TrimEnd` can return. */
  lemma {:induction false} TrimEndAt(s: string, e: nat, j: nat)
    requires 0 < e <= j <= |s| && !IsSpace(s[e - 1])
    requires forall m :: e <= m < j ==> IsSpace(s[m])
    ensures TrimEnd(s, j) == e
    decreases j
  {
    if e < j {
      TrimEndAt(s, e, j - 1);
    }
  }

  /** Whitespace around a string that neither starts nor ends with whitespace is what `strip` removes. */
  lemma {:induction false} StripPadded(pre: string, core: string, post: string)
    requires Blank(pre) && Blank(post)
    requires core != [] && !IsSpace(core[0]) && !IsSpace(core[|core| - 1])
    ensures Strip(pre + core + post) == core
  {
    var s := pre + core + post;
    SkipSpaceAt(s, 0, |pre|);
    var l := TrimLeft(s);
    assert l == core + post;
    TrimEndAt(l, |core|, |l|);
    assert TrimRight(l) == core;
  }

  /** The first index at or after `i` that is not whitespace, or `|s|`. */
  function SkipSpace(s: string, i: nat): (j: nat)
    requires i <= |s|
    ensures i <= j <= |s| && (j < |s| ==> !IsSpace(s[j]))
    ensures forall m :: i <= m < j ==> IsSpace(s[m])
    decreases |s| - i
  {
    if i < |s| && IsSpace(s[i]) then SkipSpace(s, i + 1) else i
  }

  /** The first index at or after `i` that is whitespace, or `|s|`. */
  function SkipWord(s: string, i: nat): (j: nat)
    requires i <= |s|
    ensures i <= j <= |s| && (j < |s| ==> IsSpace(s[j]))
    ensures forall m :: i <= m < j ==> !IsSpace(s[m])
    decreases |s| - i
  {
    if i < |s| && !IsSpace(s[i]) then SkipWord(s, i + 1) else i
  }

  /** The words of `s` that start at or after index `i`. */
  function WordsFrom(s: string, i: nat): seq<string>
    requires i <= |s|
    decreases |s| - i
  {
    var a := SkipSpace(s, i);
    if a == |s| then []
    else
      var b := SkipWord(s, a);
      [s[a..b]] + WordsFrom(s, b)
  }

  /** Python's `s.split()` with no argument: the maximal runs of non-whitespace. */
  function Words(s: string): seq<string>
  {
    WordsFrom(s, 0)
  }

  /** Non-empty words without whitespace, as `split()` produces. */
  predicate AreWords(ws: seq<string>)
  {
    forall n :: 0 <= n < |ws| ==> ws[n] != [] && NoSpace(ws[n])
  }

  lemma {:induction false} WordsFromShape(s: string, i: nat)
    requires i <= |s|
    ensures AreWords(WordsFrom(s, i))
    decreases |s| - i
  {
    var a := SkipSpace(s, i);
    if a < |s| {
      var b := SkipWord(s, a);
      WordsFromShape(s, b);
      var ws := WordsFrom(s, i);
      assert ws == [s[a..b]] + WordsFrom(s, b);
      forall n | 0 <= n < |ws| ensures ws[n] != [] && NoSpace(ws[n]) {
        if n > 0 { assert ws[n] == WordsFrom(s, b)[n - 1]; }
      }
    }
  }

  /** Every word is non-empty and holds no whitespace. */
  lemma {:induction false} WordsShape(s: string)
    ensures AreWords(Words(s))
  {
    WordsFromShape(s, 0);
  }

  /** `s.split()` is empty exactly when `s` is all whitespace. */
  lemma {:induction false} WordsEmpty(s: string)
    ensures Words(s) == [] <==> Blank(s)
  {
    var a := SkipSpace(s, 0);
    if a < |s| {
      assert !IsSpace(s[a]);
    }
  }

  lemma {:induction false} WordsFromChars(s: string, i: nat, n: nat, k: nat) returns (p: nat)
    requires i <= |s| && n < |WordsFrom(s, i)| && k < |WordsFrom(s, i)[n]|
    ensures p < |s| && s[p] == WordsFrom(s, i)[n][k]
    decreases |s| - i
  {
    var a := SkipSpace(s, i);
    var b := SkipWord(s, a);
    var rest := WordsFrom(s, b);
    assert WordsFrom(s, i) == [s[a..b]] + rest;
    if n == 0 {
      p := a + k;
    } else {
      assert WordsFrom(s, i)[n] == rest[n - 1];
      p := WordsFromChars(s, b, n - 1, k);
    }
  }

  /** Every character of every word is a character of the input. */
  lemma {:induction false} WordsChars(s: string, n: nat, k: nat)
    requires n < |Words(s)| && k < |Words(s)[n]|
    ensures Words(s)[n][k] in s
  {
    var p := WordsFromChars(s, 0, n, k);
  }

  /** The first non-whitespace position at or after `i` is the only one `SkipSpace` can return. */
  lemma {:induction false} SkipSpaceAt(s: string, i: nat, j: nat)
    requires i <= j <= |s| && (j < |s| ==> !IsSpace(s[j]))
    requires forall m :: i <= m < j ==> IsSpace(s[m])
    ensures SkipSpace(s, i) == j
    decreases j - i
  {
    if i < j {
      SkipSpaceAt(s, i + 1, j);
    }
  }

  /** The first whitespace position at or after `i` is the only one `SkipWord` can return. */
  lemma {:induction false} SkipWordAt(s: string, i: nat, j: nat)
    requires i <= j <= |s| && (j < |s| ==> IsSpace(s[j]))
    requires forall m :: i <= m < j ==> !IsSpace(s[m])
    ensures SkipWord(s, i) == j
    decreases j - i
  {
    if i < j {
      SkipWordAt(s, i + 1, j);
    }
  }

  /** One step of `WordsFrom`: the word at the first non-whitespace position, then the rest. */
  lemma {:induction false} WordsFromStep(s: string, i: nat, a: nat, b: nat)
    requires i <= |s| && a == SkipSpace(s, i) && a < |s| && b == SkipWord(s, a)
    ensures WordsFrom(s, i) == [s[a..b]] + WordsFrom(s, b)
  {
  }

  /** Two sequences that are each an element followed by a rest are equal when the parts are. */
  lemma {:induction false} ConsEqual<T>(x: seq<T>, y: seq<T>, v: T, w: T, xs: seq<T>, ys: seq<T>)
    requires x == [v] + xs
    requires y == [w] + ys
    requires v == w
    requires xs == ys
    ensures x == y
  {
  }

  /** `s` holds `t` from position `d` to its end. */
  predicate HoldsFrom(s: string, t: string, d: nat)
  {
    d + |t| == |s| && forall m :: 0 <= m < |t| ==> s[d + m] == t[m]
  }

  lemma {:induction false} SkipSpaceShifted(s: string, t: string, d: nat, i: nat)
    requires HoldsFrom(s, t, d) && i <= |t|
    ensures SkipSpace(s, d + i) == d + SkipSpace(t, i)
  {
    var a := SkipSpace(t, i);
    forall m | d + i <= m < d + a
      ensures IsSpace(s[m])
    {
      assert s[m] == t[m - d];
    }
    if a < |t| {
      assert s[d + a] == t[a];
    }
    SkipSpaceAt(s, d + i, d + a);
  }

  lemma {:induction false} SkipWordShifted(s: string, t: string, d: nat, a: nat)
    requires HoldsFrom(s, t, d) && a <= |t|
    ensures SkipWord(s, d + a) == d + SkipWord(t, a)
  {
    var b := SkipWord(t, a);
    forall m | d + a <= m < d + b
      ensures !IsSpace(s[m])
    {
      assert s[m] == t[m - d];
    }
    if b < |t| {
      assert s[d + b] == t[b];
    }
    SkipWordAt(s, d + a, d + b);
  }

  lemma {:induction false} SliceShifted(s: string, t: string, d: nat, a: nat, b: nat)
    requires HoldsFrom(s, t, d) && a <= b <= |t|
    ensures s[d + a..d + b] == t[a..b]
  {
    forall k | 0 <= k < b - a
      ensures s[d + a..d + b][k] == t[a..b][k]
    {
      assert s[d + a + k] == t[a + k];
    }
  }

  /** Where `s` holds `t` from position `d` to its end, the words of `s` from `d + i` on are the
      words of `t` from `i` on. */
  lemma {:induction false} WordsFromShifted(s: string, t: string, d: nat, i: nat)
    requires HoldsFrom(s, t, d) && i <= |t|
    ensures WordsFrom(s, d + i) == WordsFrom(t, i)
    decreases |t| - i
  {
    var a := SkipSpace(t, i);
    SkipSpaceShifted(s, t, d, i);
    if a < |t| {
      var b := SkipWord(t, a);
      SkipWordShifted(s, t, d, a);
      SliceShifted(s, t, d, a, b);
      WordsFromShifted(s, t, d, b);
      WordsFromStep(s, d + i, d + a, d + b);
      WordsFromStep(t, i, a, b);
      ConsEqual(WordsFrom(s, d + i), WordsFrom(t, i), s[d + a..d + b], t[a..b],
        WordsFrom(s, d + b), WordsFrom(t, b));
    }
  }

  /** Python's `sep.join(parts)`. */
  function Join(parts: seq<string>, sep: string): string
  {
    if parts == [] then [] else if |parts| == 1 then parts[0] else parts[0] + sep + Join(parts[1..], sep)
  }

  /** At position `p`, `r` holds no whitespace, or a single space strictly inside `r` whose two
      neighbours are not whitespace. */
  predicate SpacedAt(r: string, p: nat)
    requires p < |r|
  {
    IsSpace(r[p]) ==> r[p] == ' ' && 0 < p < |r| - 1 && !IsSpace(r[p - 1]) && !IsSpace(r[p + 1])
  }

  /** The only whitespace of `r` is single spaces between non-whitespace characters; in particular
      `r` neither starts nor ends with whitespace and never has two whitespace characters in a row. */
  predicate SingleSpaced(r: string)
  {
    forall p :: 0 <= p < |r| ==> SpacedAt(r, p)
  }

  /** Joining words by single spaces gives a string that is empty exactly when there are no words,
      and otherwise starts and ends with a non-whitespace character and is single-spaced. */
  lemma {:induction false} JoinSpacesShape(ws: seq<string>)
    requires AreWords(ws)
    ensures var r := Join(ws, " ");
      (ws == [] <==> r == []) && (r == [] || (!IsSpace(r[0]) && !IsSpace(r[|r| - 1]))) && SingleSpaced(r)
  {
    if |ws| == 1 {
      var w := ws[0];
      assert Join(ws, " ") == w;
      assert NoSpace(w);
      forall p | 0 <= p < |w| ensures SpacedAt(w, p) {
        assert !IsSpace(w[p]);
      }
    } else if |ws| > 1 {
      var rest := Join(ws[1..], " ");
      assert AreWords(ws[1..]) by {
        forall n | 0 <= n < |ws[1..]| ensures ws[1..][n] != [] && NoSpace(ws[1..][n]) {
          assert ws[1..][n] == ws[n + 1];
        }
      }
      JoinSpacesShape(ws[1..]);
      var w := ws[0];
      assert w != [] && NoSpace(w);
      var r := Join(ws, " ");
      assert r == w + " " + rest;
      forall p | 0 <= p < |r| ensures SpacedAt(r, p) {
        if p < |w| {
          assert r[p] == w[p];
          assert !IsSpace(w[p]);
        } else if p == |w| {
          assert r[p - 1] == w[|w| - 1];
          assert r[p + 1] == rest[0];
        } else {
          var q := p - |w| - 1;
          assert r[p] == rest[q];
          assert SpacedAt(rest, q);
          if IsSpace(rest[q]) {
            assert r[p - 1] == rest[q - 1];
            assert r[p + 1] == rest[q + 1];
          }
        }
      }
      assert r[|r| - 1] == rest[|rest| - 1];
    }
  }

  /** Words joined by single spaces have nothing to strip, and are empty exactly when there are no words. */
  lemma {:induction false} JoinedWordsStripped(ws: seq<string>)
    requires AreWords(ws)
    ensures Strip(Join(ws, " ")) == Join(ws, " ")
    ensures ws == [] <==> Join(ws, " ") == []
  {
    JoinSpacesShape(ws);
    StripUnchanged(Join(ws, " "));
  }

  /** Every character of `Join(ws, sep)` comes from a part or from the separator. */
  lemma {:induction false} JoinChars(ws: seq<string>, sep: string, c: char)
    requires c in Join(ws, sep)
    ensures c in sep || exists n, k :: 0 <= n < |ws| && 0 <= k < |ws[n]| && ws[n][k] == c
  {
    if |ws| > 1 {
      var rest := Join(ws[1..], sep);
      assert Join(ws, sep) == ws[0] + sep + rest;
      if c in ws[0] {
        var k :| 0 <= k < |ws[0]| && ws[0][k] == c;
      } else if c !in sep {
        assert c in rest;
        JoinChars(ws[1..], sep, c);
        var n, k :| 0 <= n < |ws[1..]| && 0 <= k < |ws[1..][n]| && ws[1..][n][k] == c;
        assert ws[n + 1][k] == c;
      }
    } else if |ws| == 1 {
      var k :| 0 <= k < |ws[0]| && ws[0][k] == c;
    }
  }

  /** A single word splits to itself. */
  lemma {:induction false} WordsOfWord(w: string)
    requires w != [] && NoSpace(w)
    ensures Words(w) == [w]
  {
    SkipSpaceAt(w, 0, 0);
    SkipWordAt(w, 0, |w|);
    WordsFromStep(w, 0, 0, |w|);
    assert w[0..|w|] == w;
  }

  /** A word, a space and a string that starts with a non-whitespace character split into that
      word followed by the words of the string. */
  lemma {:induction false} WordsOfCons(w: string, rest: string)
    requires w != [] && NoSpace(w) && rest != [] && !IsSpace(rest[0])
    ensures Words(w + " " + rest) == [w] + Words(rest)
  {
    var j := w + " " + rest;
    var d := |w| + 1;
    assert forall m :: 0 <= m < |w| ==> j[m] == w[m];
    assert j[|w|] == ' ' && j[d] == rest[0];
    SkipSpaceAt(j, 0, 0);
    SkipWordAt(j, 0, |w|);
    WordsFromStep(j, 0, 0, |w|);
    assert j[0..|w|] == w;
    SkipSpaceAt(j, |w|, d);
    SkipSpaceAt(j, d, d);
    assert WordsFrom(j, |w|) == WordsFrom(j, d);
    assert HoldsFrom(j, rest, d);
    WordsFromShifted(j, rest, d, 0);
  }

  /** Splitting a space-joined list of words gives the words back. */
  lemma {:induction false} WordsOfJoin(ws: seq<string>)
    requires AreWords(ws)
    ensures Words(Join(ws, " ")) == ws
  {
    if |ws| == 1 {
      WordsOfWord(ws[0]);
    } else if |ws| > 1 {
      var rest := Join(ws[1..], " ");
      assert AreWords(ws[1..]) by {
        forall n | 0 <= n < |ws[1..]| ensures ws[1..][n] != [] && NoSpace(ws[1..][n]) {
          assert ws[1..][n] == ws[n + 1];
        }
      }
      JoinSpacesShape(ws[1..]);
      assert Join(ws, " ") == ws[0] + " " + rest;
      WordsOfCons(ws[0], rest);
      WordsOfJoin(ws[1..]);
      assert [ws[0]] + ws[1..] == ws;
    }
  }

  /** Python's `s.replace(t, r)` for a non-empty `t`: non-overlapping occurrences, left to right. */
  function ReplaceAll(s: string, t: string, r: string): string
    requires t != []
    decreases |s|
  {
    if |s| < |t| then s
    else if s[..|t|] == t then r + ReplaceAll(s[|t|..], t, r)
    else [s[0]] + ReplaceAll(s[1..], t, r)
  }

  /** Replacing a pattern that does not occur changes nothing. */
  lemma {:induction false} ReplaceAbsent(s: string, t: string, r: string)
    requires t != [] && !Contains(s, t)
    ensures ReplaceAll(s, t, r) == s
    decreases |s|
  {
    if |s| >= |t| {
      assert !OccursAt(s, t, 0);
      assert s[0..|t|] == s[..|t|];
      forall k | 0 <= k <= |s[1..]| - |t| ensures !OccursAt(s[1..], t, k) {
        OccursShift(s, t, k + 1);
        assert !OccursAt(s, t, k + 1);
      }
      ReplaceAbsent(s[1..], t, r);
      assert [s[0]] + s[1..] == s;
    }
  }

  /** An occurrence in `s[1..]` is an occurrence in `s`, one position further. */
  lemma {:induction false} OccursShift(s: string, t: string, k: int)
    requires s != [] && k >= 1
    ensures OccursAt(s, t, k) <==> OccursAt(s[1..], t, k - 1)
  {
    if 0 <= k - 1 <= |s[1..]| - |t| {
      assert s[1..][k - 1..k - 1 + |t|] == s[k..k + |t|];
    }
  }

  /** The index of the first occurrence of a contained `t`. */
  function FirstIndex(s: string, t: string): (k: nat)
    requires Contains(s, t)
    ensures OccursAt(s, t, k)
    ensures forall j :: 0 <= j < k ==> !OccursAt(s, t, j)
    decreases |s|
  {
    if OccursAt(s, t, 0) then 0
    else
      var k :| 0 <= k <= |s| - |t| && OccursAt(s, t, k);
      OccursShift(s, t, k);
      var j := FirstIndex(s[1..], t);
      OccursShift(s, t, j + 1);
      FirstIndexShift(s, t, j);
      1 + j
  }

  lemma {:induction false} FirstIndexShift(s: string, t: string, j: nat)
    requires s != [] && !OccursAt(s, t, 0)
    requires forall i :: 0 <= i < j ==> !OccursAt(s[1..], t, i)
    ensures forall i :: 0 <= i < j + 1 ==> !OccursAt(s, t, i)
  {
    forall i | 1 <= i < j + 1 ensures !OccursAt(s, t, i) {
      OccursShift(s, t, i);
    }
  }

  /** `s.split(t)[0]`: the text before the first occurrence of `t`, or all of `s`. */
  function BeforeFirst(s: string, t: string): (r: string)
    requires t != []
    ensures |r| <= |s| && r == s[..|r|]
    ensures !Contains(r, t)
    ensures if Contains(s, t) then OccursAt(s, t, |r|) else r == s
  {
    if Contains(s, t) then
      var k := FirstIndex(s, t);
      PrefixBeforeFirst(s, t, k);
      s[..k]
    else s
  }

  lemma {:induction false} PrefixBeforeFirst(s: string, t: string, k: nat)
    requires t != [] && k <= |s| - |t|
    requires forall j :: 0 <= j < k ==> !OccursAt(s, t, j)
    ensures !Contains(s[..k], t)
  {
    forall j | 0 <= j <= k - |t| ensures !OccursAt(s[..k], t, j) {
      assert s[..k][j..j + |t|] == s[j..j + |t|];
      assert !OccursAt(s, t, j);
    }
  }

  /** Python's `s.split(c)` for a one-character separator. */
  function SplitOn(s: string, c: char): (parts: seq<string>)
    ensures |parts| >= 1
    decreases |s|
  {
    if s == [] then [[]]
    else
      var rest := SplitOn(s[1..], c);
      if s[0] == c then [[]] + rest else [[s[0]] + rest[0]] + rest[1..]
  }

  /** Joining the pieces of `s.split(c)` with `c` gives `s` back, and no piece holds `c`. */
  lemma {:induction false} SplitOnJoin(s: string, c: char)
    ensures Join(SplitOn(s, c), [c]) == s
    ensures forall n :: 0 <= n < |SplitOn(s, c)| ==> c !in SplitOn(s, c)[n]
    decreases |s|
  {
    if s != [] {
      var rest := SplitOn(s[1..], c);
      SplitOnJoin(s[1..], c);
      if s[0] == c {
        assert SplitOn(s, c) == [[]] + rest;
        assert SplitOn(s, c)[1..] == rest;
      } else {
        var parts := SplitOn(s, c);
        assert parts == [[s[0]] + rest[0]] + rest[1..];
        if |rest| == 1 {
          assert Join(parts, [c]) == [s[0]] + rest[0];
          assert Join(rest, [c]) == rest[0];
        } else {
          assert parts[1..] == rest[1..];
          assert Join(rest, [c]) == rest[0] + [c] + Join(rest[1..], [c]);
          assert Join(parts, [c]) == [s[0]] + rest[0] + [c] + Join(rest[1..], [c]);
        }
        assert [s[0]] + s[1..] == s;
        forall n | 0 <= n < |parts| ensures c !in parts[n] {
          if n == 0 { assert parts[0] == [s[0]] + rest[0]; } else { assert parts[n] == rest[n]; }
        }
      }
    }
  }

  /** The index of the first line break in `s`, or `|s|`. */
  function LineEnd(s: string): (k: nat)
    ensures k <= |s| && NoLineBreak(s[..k]) && (k < |s| ==> IsLineBreak(s[k]))
  {
    if s == [] || IsLineBreak(s[0]) then 0
    else
      var k := LineEnd(s[1..]);
      assert s[..k + 1] == [s[0]] + s[1..][..k];
      1 + k
  }

  /** Python's `s.splitlines()`: lines without their terminators, `\r\n` counting as one, no empty last line. */
  function SplitLines(s: string): (lines: seq<string>)
    ensures forall n :: 0 <= n < |lines| ==> NoLineBreak(lines[n]) && Contains(s, lines[n])
    decreases |s|
  {
    if s == [] then []
    else
      var k := LineEnd(s);
      if k == |s| then
        ContainsAt(s, s, 0);
        [s]
      else
        var skip := if s[k] == '\r' && k + 1 < |s| && s[k + 1] == '\n' then 2 else 1;
        var rest := SplitLines(s[k + skip..]);
        ContainsAt(s, s[..k], 0);
        forall n | 0 <= n < |rest| ensures Contains(s, rest[n]) {
          ContainsAt(s, s[k + skip..], k + skip);
          ContainsTransitive(s, s[k + skip..], rest[n]);
        }
        [s[..k]] + rest
  }

  /** A pattern without `'\n'` occurs in a newline-joined text only if it occurs in one of its lines. */
  lemma {:induction false} JoinLinesAvoids(lines: seq<string>, m: string)
    requires m != [] && forall k :: 0 <= k < |m| ==> m[k] != '\n'
    requires forall n :: 0 <= n < |lines| ==> !Contains(lines[n], m)
    ensures !Contains(Join(lines, "\n"), m)
  {
    if lines == [] {
      assert Join(lines, "\n") == [];
    } else if |lines| == 1 {
      assert !Contains(lines[0], m);
    } else {
      assert forall n :: 0 <= n < |lines[1..]| ==> lines[1..][n] == lines[n + 1];
      JoinLinesAvoids(lines[1..], m);
      assert Join(lines, "\n") == lines[0] + ['\n'] + Join(lines[1..], "\n");
      assert !Contains(lines[0], m);
      AvoidsAcross(lines[0], '\n', Join(lines[1..], "\n"), m);
    }
  }
}
