/**
 * The JavaScript string primitives the client relies on, written out:
 * `trim()`, the `\s` class, `split` on delimiter characters, `toLowerCase()`,
 * `includes`, `indexOf`, `endsWith` and number-to-decimal-text.
 */
module Text {

  /** ECMAScript WhiteSpace and LineTerminator code points: what `trim()` strips
      and what the regular-expression class `\s` matches. */
  predicate IsSpace(c: char) {
    c == '\t' || c == '\U{000B}' || c == '\U{000C}' || c == ' ' || c == '\U{00A0}'
    || c == '\U{FEFF}' || c == '\n' || c == '\r' || c == '\U{2028}' || c == '\U{2029}'
    || c == '\U{1680}' || ('\U{2000}' <= c <= '\U{200A}') || c == '\U{202F}'
    || c == '\U{205F}' || c == '\U{3000}'
  }

  predicate NotSpace(c: char) {
    !IsSpace(c)
  }

  /** Neither end of `s` is whitespace. */
  predicate IsTrimmed(s: string) {
    s == [] || (!IsSpace(s[0]) && !IsSpace(s[|s| - 1]))
  }

  /** The characters of `s` that satisfy `keep`, in order. */
  function Filter(s: string, keep: char -> bool): (r: string)
    ensures |r| <= |s|
  {
    if s == [] then [] else (if keep(s[0]) then [s[0]] else []) + Filter(s[1..], keep)
  }

  lemma {:induction false} FilterAppend(a: string, b: string, keep: char -> bool)
    ensures Filter(a + b, keep) == Filter(a, keep) + Filter(b, keep)
  {
    if a == [] {
      assert a + b == b;
    } else {
      var head := if keep(a[0]) then [a[0]] else [];
      assert (a + b)[0] == a[0] && (a + b)[1..] == a[1..] + b;
      FilterAppend(a[1..], b, keep);
      calc {
        Filter(a + b, keep);
        head + Filter(a[1..] + b, keep);
        head + (Filter(a[1..], keep) + Filter(b, keep));
        (head + Filter(a[1..], keep)) + Filter(b, keep);
      }
    }
  }

  /** Two filters that agree on every character of `s` keep the same characters. */
  lemma {:induction false} FilterAgree(s: string, keep1: char -> bool, keep2: char -> bool)
    requires forall k :: 0 <= k < |s| ==> keep1(s[k]) == keep2(s[k])
    ensures Filter(s, keep1) == Filter(s, keep2)
  {
    if s != [] {
      FilterAgree(s[1..], keep1, keep2);
    }
  }

  /** Leading whitespace removed (`trimStart`). */
  function TrimStart(s: string): (r: string)
    ensures |r| <= |s| && r == s[|s| - |r|..]
    ensures forall k :: 0 <= k < |s| - |r| ==> IsSpace(s[k])
    ensures r == [] || !IsSpace(r[0])
  {
    if s != [] && IsSpace(s[0]) then TrimStart(s[1..]) else s
  }

  /** Trailing whitespace removed (`trimEnd`). */
  function TrimEnd(s: string): (r: string)
    ensures |r| <= |s| && r == s[..|r|]
    ensures forall k :: |r| <= k < |s| ==> IsSpace(s[k])
    ensures r == [] || !IsSpace(r[|r| - 1])
  {
    if s != [] && IsSpace(s[|s| - 1]) then TrimEnd(s[..|s| - 1]) else s
  }

  /** `String.prototype.trim`: both ends stripped of whitespace. The result is
      trimmed and leaves a trimmed string alone; `TrimKeeps` and
      `TrimEmpty` say what it keeps. */
  function Trim(s: string): (r: string)
    ensures IsTrimmed(r) && |r| <= |s|
    ensures IsTrimmed(s) ==> r == s
  {
    TrimEnd(TrimStart(s))
  }

  /** Whatever filter ignores whitespace sees the same characters in `Trim(s)` as in `s`. */
  lemma {:induction false} TrimKeeps(s: string, keep: char -> bool)
    requires forall c :: IsSpace(c) ==> !keep(c)
    ensures Filter(Trim(s), keep) == Filter(s, keep)
  {
    TrimStartKeeps(s, keep);
    TrimEndKeeps(TrimStart(s), keep);
  }

  lemma {:induction false} TrimStartKeeps(s: string, keep: char -> bool)
    requires forall c :: IsSpace(c) ==> !keep(c)
    ensures Filter(TrimStart(s), keep) == Filter(s, keep)
  {
    if s != [] && IsSpace(s[0]) {
      TrimStartKeeps(s[1..], keep);
    }
  }

  lemma {:induction false} TrimEndKeeps(s: string, keep: char -> bool)
    requires forall c :: IsSpace(c) ==> !keep(c)
    ensures Filter(TrimEnd(s), keep) == Filter(s, keep)
  {
    if s != [] && IsSpace(s[|s| - 1]) {
      var init := s[..|s| - 1];
      TrimEndKeeps(init, keep);
      assert s == init + [s[|s| - 1]];
      FilterAppend(init, [s[|s| - 1]], keep);
      assert Filter([s[|s| - 1]], keep) == [];
    }
  }

  /** `trim()` returns the empty string exactly for all-whitespace input. */
  lemma {:induction false} TrimEmpty(s: string)
    ensures Trim(s) == [] <==> forall k :: 0 <= k < |s| ==> IsSpace(s[k])
  {
  }

  /** Appending whitespace does not change what `trim()` returns. */
  lemma {:induction false} TrimIgnoresTrailingSpace(s: string, c: char)
    requires IsSpace(c)
    ensures Trim(s + [c]) == Trim(s)
  {
    TrimStartAppend(s, c);
    var t := TrimStart(s);
    if t != [] {
      assert (t + [c])[..|t + [c]| - 1] == t;
    }
  }

  lemma {:induction false} TrimStartAppend(s: string, c: char)
    requires IsSpace(c)
    ensures TrimStart(s + [c]) == if TrimStart(s) == [] then [] else TrimStart(s) + [c]
  {
    if s == [] {
      assert TrimStart([c]) == TrimStart([]);
    } else {
      assert (s + [c])[1..] == s[1..] + [c];
      TrimStartAppend(s[1..], c);
    }
  }

  /** The characters of `s` that are in `delims`, in order. */
  function Delimiters(s: string, delims: set<char>): (r: string)
    ensures forall c :: c in r ==> c in delims
  {
    if s == [] then [] else (if s[0] in delims then [s[0]] else []) + Delimiters(s[1..], delims)
  }

  predicate NoneIn(s: string, delims: set<char>) {
    forall c :: c in s ==> c !in delims
  }

  /** `s.split(re)` for a regular expression that matches one character of
      `delims`: the pieces between delimiters, empty pieces included. */
  function Split(s: string, delims: set<char>): (pieces: seq<string>)
    ensures |pieces| == |Delimiters(s, delims)| + 1
    ensures forall i :: 0 <= i < |pieces| ==> NoneIn(pieces[i], delims)
  {
    if s == [] then [""]
    else
      var rest := Split(s[1..], delims);
      if s[0] in delims then [""] + rest
      else [[s[0]] + rest[0]] + rest[1..]
  }

  /** The inverse of `Split`: put the delimiters back between the pieces. */
  function Interleave(pieces: seq<string>, seps: string): string
    requires |pieces| == |seps| + 1
  {
    if seps == [] then pieces[0]
    else pieces[0] + [seps[0]] + Interleave(pieces[1..], seps[1..])
  }

  lemma {:induction false} InterleaveCons(c: char, pieces: seq<string>, seps: string)
    requires |pieces| == |seps| + 1
    ensures Interleave([[c] + pieces[0]] + pieces[1..], seps) == [c] + Interleave(pieces, seps)
  {
    var ps := [[c] + pieces[0]] + pieces[1..];
    if seps != [] {
      assert ps[1..] == pieces[1..];
    }
  }

  /** Splitting loses nothing: the pieces and the delimiters interleave back to `s`. */
  lemma {:induction false} SplitRoundTrip(s: string, delims: set<char>)
    ensures Interleave(Split(s, delims), Delimiters(s, delims)) == s
  {
    if s != [] {
      var rest := Split(s[1..], delims);
      SplitRoundTrip(s[1..], delims);
      if s[0] in delims {
        assert Split(s, delims)[1..] == rest;
        assert s == [s[0]] + s[1..];
      } else {
        assert Split(s, delims) == [[s[0]] + rest[0]] + rest[1..];
        assert Delimiters(s, delims) == Delimiters(s[1..], delims);
        InterleaveCons(s[0], rest, Delimiters(s[1..], delims));
        assert s == [s[0]] + s[1..];
      }
    }
  }

  /** Splitting at a delimiter splits the pieces there. */
  lemma {:induction false} SplitAround(a: string, d: char, b: string, delims: set<char>)
    requires d in delims
    ensures Split(a + [d] + b, delims) == Split(a, delims) + Split(b, delims)
  {
    if a == [] {
      assert a + [d] + b == [d] + b;
      assert ([d] + b)[1..] == b;
    } else {
      var t := a + [d] + b;
      assert t[0] == a[0] && t[1..] == a[1..] + [d] + b;
      SplitAround(a[1..], d, b, delims);
      var front, back := Split(a[1..], delims), Split(b, delims);
      if a[0] in delims {
        assert [""] + (front + back) == ([""] + front) + back;
      } else {
        MergeAppend([a[0]], front, back);
      }
    }
  }

  /** Merging `x` into the first piece of `front + back` only touches `front`. */
  lemma {:induction false} MergeAppend(x: string, front: seq<string>, back: seq<string>)
    requires front != []
    ensures [x + (front + back)[0]] + (front + back)[1..] == ([x + front[0]] + front[1..]) + back
  {
    assert (front + back)[1..] == front[1..] + back;
  }

  /** A string without delimiters is one piece. */
  lemma {:induction false} SplitWhole(s: string, delims: set<char>)
    requires NoneIn(s, delims)
    ensures Split(s, delims) == [s]
  {
    if s != [] {
      assert s[0] in s;
      assert NoneIn(s[1..], delims) by {
        forall c | c in s[1..] ensures c !in delims { assert c in s; }
      }
      SplitWhole(s[1..], delims);
      assert [s[0]] + s[1..] == s;
    }
  }

  /** Text without delimiters in front of `s` joins `s`'s first piece. */
  lemma {:induction false} SplitPrepend(x: string, s: string, delims: set<char>)
    requires NoneIn(x, delims)
    ensures var p := Split(s, delims);
      Split(x + s, delims) == [x + p[0]] + p[1..]
  {
    if x == [] {
      assert x + s == s;
      assert Split(s, delims)[0] == x + Split(s, delims)[0];
    } else {
      assert x[0] in x;
      assert NoneIn(x[1..], delims) by {
        forall c | c in x[1..] ensures c !in delims { assert c in x; }
      }
      assert (x + s)[0] == x[0] && (x + s)[1..] == x[1..] + s;
      SplitPrepend(x[1..], s, delims);
      assert [x[0]] + (x[1..] + Split(s, delims)[0]) == x + Split(s, delims)[0];
    }
  }

  /** `pieces` with `c` added to the end of the last piece. */
  function ExtendLast(pieces: seq<string>, c: char): (r: seq<string>)
    requires pieces != []
    ensures |r| == |pieces| && r[|r| - 1] == pieces[|pieces| - 1] + [c]
    ensures forall i :: 0 <= i < |r| - 1 ==> r[i] == pieces[i]
  {
    pieces[..|pieces| - 1] + [pieces[|pieces| - 1] + [c]]
  }

  /** Extending the last piece commutes with prefixing the first piece. */
  lemma {:induction false} ExtendLastMerge(x: string, pieces: seq<string>, c: char)
    requires pieces != []
    ensures ExtendLast([x + pieces[0]] + pieces[1..], c) ==
      var e := ExtendLast(pieces, c); [x + e[0]] + e[1..]
  {
    if |pieces| == 1 {
      assert x + (pieces[0] + [c]) == (x + pieces[0]) + [c];
    }
  }

  /** Appending a non-delimiter extends the last piece. */
  lemma {:induction false} SplitSnoc(s: string, c: char, delims: set<char>)
    requires c !in delims
    ensures Split(s + [c], delims) == ExtendLast(Split(s, delims), c)
  {
    if s == [] {
      assert [c][1..] == [] && Split([], delims) == [""];
      assert [c] + "" == [c] && s + [c] == [c];
      assert Split([c], delims) == [[c]];
    } else {
      var t := s + [c];
      assert t[0] == s[0] && t[1..] == s[1..] + [c];
      SplitSnoc(s[1..], c, delims);
      var rest := Split(s[1..], delims);
      if s[0] !in delims {
        ExtendLastMerge([s[0]], rest, c);
      }
    }
  }

  /** Filtering the pieces of a split sees the same characters as filtering the
      input, when the filter drops every delimiter. */
  lemma {:induction false} FilterSplit(s: string, delims: set<char>, keep: char -> bool)
    requires forall c :: c in delims ==> !keep(c)
    ensures Filter(Concat(Split(s, delims)), keep) == Filter(s, keep)
  {
    if s != [] {
      var rest := Split(s[1..], delims);
      FilterSplit(s[1..], delims, keep);
      if s[0] in delims {
        assert Split(s, delims) == [""] + rest;
        ConcatCons("", rest);
        assert "" + Concat(rest) == Concat(rest);
      } else {
        ConcatMerge([s[0]], rest);
        FilterAppend([s[0]], Concat(rest), keep);
        assert [s[0]][1..] == [];
      }
    }
  }

  /** Concatenation of lists of strings is associative; a hint for `calc` steps. */
  lemma Associative(a: seq<string>, b: seq<string>, c: seq<string>)
    ensures a + b + c == a + (b + c)
  {
  }

  /** `values.join(sep)`: the strings with `sep` between neighbours. */
  function Join(ss: seq<string>, sep: string): string {
    if ss == [] then []
    else if |ss| == 1 then ss[0]
    else ss[0] + sep + Join(ss[1..], sep)
  }

  /** The pieces laid end to end. */
  function Concat(ss: seq<string>): string {
    if ss == [] then [] else ss[0] + Concat(ss[1..])
  }

  /** Merging `x` into the first piece puts it in front of the concatenation. */
  lemma {:induction false} ConcatMerge(x: string, pieces: seq<string>)
    requires pieces != []
    ensures Concat([x + pieces[0]] + pieces[1..]) == x + Concat(pieces)
  {
    ConcatCons(x + pieces[0], pieces[1..]);
    ConcatCons(pieces[0], pieces[1..]);
    assert pieces == [pieces[0]] + pieces[1..];
  }

  lemma {:induction false} ConcatCons(s: string, ss: seq<string>)
    ensures Concat([s] + ss) == s + Concat(ss)
  {
    assert ([s] + ss)[1..] == ss;
  }

  lemma {:induction false} ConcatAppend(a: seq<string>, b: seq<string>)
    ensures Concat(a + b) == Concat(a) + Concat(b)
  {
    if a == [] {
      assert a + b == b;
    } else {
      assert (a + b)[0] == a[0] && (a + b)[1..] == a[1..] + b;
      ConcatAppend(a[1..], b);
      calc {
        Concat(a + b);
        a[0] + Concat(a[1..] + b);
        a[0] + (Concat(a[1..]) + Concat(b));
        (a[0] + Concat(a[1..])) + Concat(b);
      }
    }
  }

  /** Every piece free of `delims` makes the whole free of them. */
  lemma {:induction false} ConcatNoneIn(ss: seq<string>, delims: set<char>)
    requires forall i :: 0 <= i < |ss| ==> NoneIn(ss[i], delims)
    ensures NoneIn(Concat(ss), delims)
  {
    if ss != [] {
      ConcatNoneIn(ss[1..], delims);
      assert NoneIn(ss[0], delims);
    }
  }

  /** `values.filter(Boolean)` on strings: the non-empty ones, in order. */
  function NonEmpty(ss: seq<string>): (r: seq<string>)
    ensures |r| <= |ss|
    ensures forall i :: 0 <= i < |r| ==> r[i] != [] && r[i] in ss
  {
    if ss == [] then [] else (if ss[0] == [] then [] else [ss[0]]) + NonEmpty(ss[1..])
  }

  lemma {:induction false} NonEmptyAppend(a: seq<string>, b: seq<string>)
    ensures NonEmpty(a + b) == NonEmpty(a) + NonEmpty(b)
  {
    if a == [] {
      assert a + b == b;
    } else {
      var head := if a[0] == [] then [] else [a[0]];
      assert (a + b)[0] == a[0] && (a + b)[1..] == a[1..] + b;
      NonEmptyAppend(a[1..], b);
      calc {
        NonEmpty(a + b);
        head + NonEmpty(a[1..] + b);
        head + (NonEmpty(a[1..]) + NonEmpty(b));
        (head + NonEmpty(a[1..])) + NonEmpty(b);
      }
    }
  }

  /** Dropping empty strings does not change the concatenation. */
  lemma {:induction false} ConcatNonEmpty(ss: seq<string>)
    ensures Concat(NonEmpty(ss)) == Concat(ss)
  {
    if ss != [] {
      ConcatNonEmpty(ss[1..]);
      if ss[0] != [] {
        ConcatCons(ss[0], NonEmpty(ss[1..]));
      } else {
        assert NonEmpty(ss) == NonEmpty(ss[1..]);
      }
    }
  }

  /** `values.map((v) => v.trim())`. */
  function TrimAll(ss: seq<string>): (r: seq<string>)
    ensures |r| == |ss|
    ensures forall i :: 0 <= i < |ss| ==> r[i] == Trim(ss[i])
  {
    if ss == [] then [] else [Trim(ss[0])] + TrimAll(ss[1..])
  }

  lemma {:induction false} TrimAllAppend(a: seq<string>, b: seq<string>)
    ensures TrimAll(a + b) == TrimAll(a) + TrimAll(b)
  {
    if a == [] {
      assert a + b == b;
    } else {
      assert (a + b)[0] == a[0] && (a + b)[1..] == a[1..] + b;
      TrimAllAppend(a[1..], b);
      calc {
        TrimAll(a + b);
        [Trim(a[0])] + TrimAll(a[1..] + b);
        [Trim(a[0])] + (TrimAll(a[1..]) + TrimAll(b));
        ([Trim(a[0])] + TrimAll(a[1..])) + TrimAll(b);
      }
    }
  }

  /** ASCII case folding of one character. */
  function LowerChar(c: char): (r: char)
    ensures 'A' <= c <= 'Z' ==> 'a' <= r <= 'z'
    ensures !('A' <= c <= 'Z') ==> r == c
  {
    if 'A' <= c <= 'Z' then (c as int + 32) as char else c
  }

  /** `toLowerCase()`, restricted to ASCII letters: the result has no
      capitals, and a string without capitals is returned as it is. */
  function ToLower(s: string): (r: string)
    ensures |r| == |s|
    ensures forall k :: 0 <= k < |r| ==> !('A' <= r[k] <= 'Z')
    ensures (forall k :: 0 <= k < |s| ==> !('A' <= s[k] <= 'Z')) ==> r == s
  {
    seq(|s|, k requires 0 <= k < |s| => LowerChar(s[k]))
  }

  /** `needle` occurs in `hay` starting at index `i`. */
  predicate OccursAt(hay: string, needle: string, i: int) {
    0 <= i && i + |needle| <= |hay| && hay[i..i + |needle|] == needle
  }

  /** `hay.includes(needle)`. */
  predicate Contains(hay: string, needle: string) {
    exists i :: 0 <= i <= |hay| && OccursAt(hay, needle, i)
  }

  /** `hay.indexOf(needle, from)`: the first occurrence at or after `from`, or -1. */
  function IndexOfFrom(hay: string, needle: string, from: nat): (r: int)
    ensures r == -1 || (from <= r && OccursAt(hay, needle, r))
    ensures forall k :: from <= k && (r == -1 || k < r) ==> !OccursAt(hay, needle, k)
    decreases |hay| - from
  {
    if from + |needle| > |hay| then -1
    else if hay[from..from + |needle|] == needle then from
    else IndexOfFrom(hay, needle, from + 1)
  }

  /** `hay.indexOf(needle)`: the first occurrence, or -1 when there is none. */
  function IndexOf(hay: string, needle: string): (r: int)
    ensures r == -1 <==> !Contains(hay, needle)
    ensures r != -1 ==> OccursAt(hay, needle, r) && forall k :: 0 <= k < r ==> !OccursAt(hay, needle, k)
  {
    IndexOfFrom(hay, needle, 0)
  }

  /** `s.endsWith(suffix)`. */
  predicate EndsWith(s: string, suffix: string) {
    |suffix| <= |s| && s[|s| - |suffix|..] == suffix
  }

  /** The decimal digit for `d`. */
  function Digit(d: nat): (c: char)
    requires d < 10
    ensures '0' <= c <= '9' && (c as int) - ('0' as int) == d
  {
    ('0' as int + d) as char
  }

  /** `String(n)` for a non-negative integer: its decimal digits, no leading zero. */
  function Decimal(n: nat): (r: string)
    ensures r != [] && forall k :: 0 <= k < |r| ==> '0' <= r[k] <= '9'
    ensures |r| > 1 ==> r[0] != '0'
  {
    if n < 10 then [Digit(n)] else Decimal(n / 10) + [Digit(n % 10)]
  }
}
