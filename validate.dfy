/**
 * The IMB input pipeline of `assets/validate.js`: splitting pasted text into
 * tokens, trimming and de-duplicating them, classifying each token by a
 * length/charset heuristic, and turning the failures into warning messages.
 */
module Validate {
  import opened Wrappers
  import opened Text
  import opened Seqs

  /** Inclusive bounds on the trimmed length of an acceptable IMB. */
  const ImbMinLen: nat := 10
  const ImbMaxLen: nat := 80

  /** One character of the class `[A-Za-z0-9._\-\/\s]`. */
  predicate IsAllowedChar(c: char) {
    ('A' <= c <= 'Z') || ('a' <= c <= 'z') || ('0' <= c <= '9')
    || c == '.' || c == '_' || c == '-' || c == '/' || IsSpace(c)
  }

  /** `IMB_ALLOWED_RE.test(s)` for `/^[A-Za-z0-9._\-\/\s]+$/`: at least one
      character, and every character allowed. */
  predicate MatchesAllowed(s: string) {
    |s| >= 1 && forall k :: 0 <= k < |s| ==> IsAllowedChar(s[k])
  }

  datatype Reason = Empty | Length | Charset

  /** `{ ok: true }` or `{ ok: false, reason }`. */
  datatype Verdict = Ok | Invalid(reason: Reason)

  // ---------------------------------------------------------------------------
  // validateImb

  /** Classifies one token. The first failing rule wins: emptiness, then length
      of the trimmed token, then its characters. */
  function ValidateImb(imb: string): Verdict {
    var trimmed := Trim(imb);
    if trimmed == [] then Invalid(Empty)
    else if |trimmed| < ImbMinLen || |trimmed| > ImbMaxLen then Invalid(Length)
    else if !MatchesAllowed(trimmed) then Invalid(Charset)
    else Ok
  }

  /** The verdict of `ValidateImb` in terms of the token: `Empty` exactly for
      an all-whitespace token; `Length` whenever the trimmed length is out of
      range, whatever the characters; `Ok` exactly for an in-range token of
      allowed characters; `Charset` exactly for an in-range token with a
      character outside the class. */
  lemma {:induction false} ValidateImbRules(imb: string)
    ensures ValidateImb(imb) == Invalid(Empty) <==> forall k :: 0 <= k < |imb| ==> IsSpace(imb[k])
    ensures Trim(imb) != [] && (|Trim(imb)| < ImbMinLen || |Trim(imb)| > ImbMaxLen) ==>
      ValidateImb(imb) == Invalid(Length)
    ensures ValidateImb(imb) == Ok <==>
      ImbMinLen <= |Trim(imb)| <= ImbMaxLen && forall k :: 0 <= k < |Trim(imb)| ==> IsAllowedChar(Trim(imb)[k])
    ensures ValidateImb(imb) == Invalid(Charset) <==>
      ImbMinLen <= |Trim(imb)| <= ImbMaxLen && exists k :: 0 <= k < |Trim(imb)| && !IsAllowedChar(Trim(imb)[k])
  {
    TrimEmpty(imb);
  }

  // ---------------------------------------------------------------------------
  // normalizeImbs

  /** No value occurs twice. */
  predicate Distinct(s: seq<string>) {
    forall i, j :: 0 <= i < j < |s| ==> s[i] != s[j]
  }

  /** The non-empty values of `ts`, each kept only the first time it is
      seen; built one value at a time, as the loop of `normalizeImbs` sees
      them. */
  function Unique(ts: seq<string>): (r: seq<string>)
    ensures Distinct(r)
  {
    if ts == [] then []
    else
      var n := |ts| - 1;
      var prev := Unique(ts[..n]);
      if ts[n] == [] || ts[n] in prev then prev else prev + [ts[n]]
  }

  /** What `normalizeImbs` returns for `input`: the trimmed values, empty ones
      dropped, duplicates after their first occurrence dropped. Written as the
      loop builds it, one input element at a time. */
  function Normalize(input: seq<string>): (r: seq<string>)
    ensures Distinct(r)
  {
    if input == [] then []
    else
      var n := |input| - 1;
      var prev := Normalize(input[..n]);
      var value := Trim(input[n]);
      if value == [] || value in prev then prev else prev + [value]
  }

  /** One more value is appended exactly when it is new and non-empty. */
  lemma {:induction false} UniqueSnoc(ts: seq<string>, v: string)
    ensures Unique(ts + [v]) == if v == [] || v in Unique(ts) then Unique(ts) else Unique(ts) + [v]
  {
    assert (ts + [v])[..|ts|] == ts;
  }

  /** `normalizeImbs` is `Unique` applied to the trimmed input. */
  lemma {:induction false} NormalizeIsUnique(input: seq<string>)
    ensures Normalize(input) == Unique(TrimAll(input))
  {
    if input != [] {
      var n := |input| - 1;
      var p, x := input[..n], input[n];
      assert input == p + [x];
      NormalizeIsUnique(p);
      TrimAllAppend(p, [x]);
      UniqueSnoc(TrimAll(p), Trim(x));
    }
  }

  /** `normalizeImbs`: one pass over the input with a `seen` set. */
  method NormalizeImbs(input: seq<string>) returns (results: seq<string>)
    ensures results == Normalize(input)
  {
    var seen: set<string> := {};
    results := [];
    var i := 0;
    while i < |input|
      invariant 0 <= i <= |input|
      invariant results == Normalize(input[..i])
      invariant forall v :: v in seen <==> v in results
    {
      var value := Trim(input[i]);
      assert input[..i + 1][..i] == input[..i];
      if value != [] && value !in seen {
        seen := seen + {value};
        results := results + [value];
      }
      i := i + 1;
    }
    assert input[..|input|] == input;
  }

  /** `Unique` keeps every non-empty value of `ts` and nothing else. */
  lemma {:induction false} UniqueContents(ts: seq<string>)
    ensures forall v :: v in Unique(ts) <==> v in ts && v != []
  {
    if ts != [] {
      var n := |ts| - 1;
      UniqueContents(ts[..n]);
      assert ts == ts[..n] + [ts[n]];
    }
  }

  /** Every value of `TrimAll` is trimmed. */
  lemma {:induction false} TrimAllTrimmed(ss: seq<string>, v: string)
    requires v in TrimAll(ss)
    ensures IsTrimmed(v)
  {
    var k :| 0 <= k < |TrimAll(ss)| && TrimAll(ss)[k] == v;
    assert v == Trim(ss[k]);
  }

  /** `normalizeImbs` keeps every non-empty trimmed input value and nothing
      else, and what it keeps is trimmed. */
  lemma {:induction false} NormalizeContents(input: seq<string>)
    ensures forall v :: v in Normalize(input) <==> v in TrimAll(input) && v != []
    ensures forall v :: v in Normalize(input) ==> IsTrimmed(v)
  {
    NormalizeIsUnique(input);
    UniqueContents(TrimAll(input));
    forall v | v in Normalize(input) ensures IsTrimmed(v) {
      TrimAllTrimmed(input, v);
    }
  }

  /** The index of the first occurrence of `v` in `ts`, or `|ts|` when
      there is none. */
  function FirstIndex(ts: seq<string>, v: string): (k: nat)
    ensures k <= |ts| && (k < |ts| <==> v in ts)
    ensures k < |ts| ==> ts[k] == v
    ensures forall j :: 0 <= j < k ==> ts[j] != v
  {
    if ts == [] then 0 else if ts[0] == v then 0 else 1 + FirstIndex(ts[1..], v)
  }

  /** Adding elements at the end does not move a first occurrence. */
  lemma {:induction false} FirstIndexExtend(ts: seq<string>, x: string, v: string)
    requires v in ts
    ensures FirstIndex(ts + [x], v) == FirstIndex(ts, v)
  {
    if ts[0] != v {
      assert (ts + [x])[1..] == ts[1..] + [x];
      FirstIndexExtend(ts[1..], x, v);
    }
  }

  /** `Unique` lists values in the order in which each first occurs in `ts`. */
  lemma {:induction false} UniqueFirstSeenOrder(ts: seq<string>)
    ensures var r := Unique(ts);
      forall i, j :: 0 <= i < j < |r| ==> FirstIndex(ts, r[i]) < FirstIndex(ts, r[j])
  {
    if ts != [] {
      var n := |ts| - 1;
      var p, v := ts[..n], ts[n];
      assert ts == p + [v];
      UniqueFirstSeenOrder(p);
      UniqueContents(p);
      UniqueSnoc(p, v);
      var prev := Unique(p);
      assert forall i :: 0 <= i < |prev| ==> prev[i] in ts by {
        forall i | 0 <= i < |prev| ensures prev[i] in ts { assert prev[i] in prev; }
      }
      OrderStep(p, v, prev, Unique(ts));
    }
  }

  /** One step of `UniqueFirstSeenOrder`: `r` is `prev`, possibly with a value
      that `ts` did not hold yet appended. */
  lemma {:induction false} OrderStep(ts: seq<string>, v: string, prev: seq<string>, r: seq<string>)
    requires forall i :: 0 <= i < |prev| ==> prev[i] in ts
    requires forall u :: u in ts && u != [] ==> u in prev
    requires forall i, j :: 0 <= i < j < |prev| ==> FirstIndex(ts, prev[i]) < FirstIndex(ts, prev[j])
    requires r == prev || (v != [] && v !in prev && r == prev + [v])
    ensures forall i, j :: 0 <= i < j < |r| ==> FirstIndex(ts + [v], r[i]) < FirstIndex(ts + [v], r[j])
  {
    forall i | 0 <= i < |prev|
      ensures FirstIndex(ts + [v], prev[i]) == FirstIndex(ts, prev[i])
    {
      FirstIndexExtend(ts, v, prev[i]);
    }
    if r != prev {
      assert v !in ts;
      assert FirstIndex(ts + [v], v) == |ts|;
      forall i, j | 0 <= i < j < |r|
        ensures FirstIndex(ts + [v], r[i]) < FirstIndex(ts + [v], r[j])
      {
        assert r[i] == prev[i];
        if j < |prev| {
          assert r[j] == prev[j];
        }
      }
    }
  }

  /** `normalizeImbs` lists values in the order in which each was first seen
      among the trimmed inputs. */
  lemma {:induction false} NormalizeFirstSeenOrder(input: seq<string>)
    ensures var ts, r := TrimAll(input), Normalize(input);
      forall i, j :: 0 <= i < j < |r| ==> FirstIndex(ts, r[i]) < FirstIndex(ts, r[j])
  {
    NormalizeIsUnique(input);
    UniqueFirstSeenOrder(TrimAll(input));
  }

  /** A list that is already non-empty and duplicate-free is a fixed point of
      `Unique`. */
  lemma {:induction false} UniqueFixedPoint(ys: seq<string>)
    requires Distinct(ys)
    requires forall i :: 0 <= i < |ys| ==> ys[i] != []
    ensures Unique(ys) == ys
  {
    if ys != [] {
      var n := |ys| - 1;
      var p := ys[..n];
      assert Distinct(p);
      UniqueFixedPoint(p);
      assert ys[n] !in p by {
        forall i | 0 <= i < n ensures p[i] != ys[n] { assert p[i] == ys[i]; }
      }
    }
  }

  /** A list that is already trimmed, non-empty and duplicate-free is a fixed
      point of `normalizeImbs`. */
  lemma {:induction false} NormalizeFixedPoint(ys: seq<string>)
    requires Distinct(ys)
    requires forall i :: 0 <= i < |ys| ==> ys[i] != [] && IsTrimmed(ys[i])
    ensures Normalize(ys) == ys
  {
    NormalizeIsUnique(ys);
    assert TrimAll(ys) == ys;
    UniqueFixedPoint(ys);
  }

  /** `normalizeImbs` is idempotent. */
  lemma {:induction false} NormalizeIdempotent(input: seq<string>)
    ensures Normalize(Normalize(input)) == Normalize(input)
  {
    var r := Normalize(input);
    NormalizeContents(input);
    assert forall i :: 0 <= i < |r| ==> r[i] in r;
    NormalizeFixedPoint(r);
  }

  // ---------------------------------------------------------------------------
  // parseImbs

  /** The characters of a token that survive parsing: everything but
      whitespace and the `,`/`;` delimiters. */
  predicate IsTokenContent(c: char) {
    !IsSpace(c) && c != ',' && c != ';'
  }

  /** `line` without one trailing carriage return. */
  function DropCR(line: string): (r: string)
    ensures r == line || (line == r + ['\r'])
  {
    if line != [] && line[|line| - 1] == '\r' then line[..|line| - 1] else line
  }

  /** Every piece but the last was followed by a line feed; a carriage return
      right before that line feed belongs to the separator. */
  function DropCRs(pieces: seq<string>): (r: seq<string>)
    ensures |r| == |pieces|
  {
    if |pieces| <= 1 then pieces else [DropCR(pieces[0])] + DropCRs(pieces[1..])
  }

  /** `text.split(/\r?\n/)`. */
  function Lines(text: string): (lines: seq<string>)
    ensures |lines| >= 1
    ensures forall i :: 0 <= i < |lines| ==> NoneIn(lines[i], {'\n'})
  {
    var pieces := Split(text, {'\n'});
    DropCRsKeepsNoneIn(pieces, {'\n'});
    DropCRs(pieces)
  }

  lemma {:induction false} DropCRsKeepsNoneIn(pieces: seq<string>, delims: set<char>)
    requires forall i :: 0 <= i < |pieces| ==> NoneIn(pieces[i], delims)
    ensures forall i :: 0 <= i < |pieces| ==> NoneIn(DropCRs(pieces)[i], delims)
  {
    if |pieces| > 1 {
      DropCRsKeepsNoneIn(pieces[1..], delims);
      var d := DropCR(pieces[0]);
      assert NoneIn(d, delims) by {
        forall c | c in d ensures c !in delims {
          if d != pieces[0] { assert pieces[0] == d + ['\r']; assert c in pieces[0]; }
        }
      }
      forall i | 0 <= i < |pieces| ensures NoneIn(DropCRs(pieces)[i], delims) {
        if i > 0 { assert DropCRs(pieces)[i] == DropCRs(pieces[1..])[i - 1]; }
      }
    }
  }

  /** `lines.flatMap((line) => line.split(/[,;]/))`. */
  function SplitEach(lines: seq<string>): (chunks: seq<string>)
    ensures forall i :: 0 <= i < |chunks| ==> NoneIn(chunks[i], {',', ';'})
    ensures (forall j :: 0 <= j < |lines| ==> NoneIn(lines[j], {'\n'})) ==>
      forall i :: 0 <= i < |chunks| ==> NoneIn(chunks[i], {'\n'})
  {
    if lines == [] then []
    else
      var first := Split(lines[0], {',', ';'});
      var rest := SplitEach(lines[1..]);
      assert (forall j :: 0 <= j < |lines| ==> NoneIn(lines[j], {'\n'})) ==>
        forall i :: 0 <= i < |first| ==> NoneIn(first[i], {'\n'})
      by {
        if forall j :: 0 <= j < |lines| ==> NoneIn(lines[j], {'\n'}) {
          forall i, c | 0 <= i < |first| && c in first[i] ensures c != '\n' {
            SplitSubset(lines[0], {',', ';'}, i, c);
            assert NoneIn(lines[0], {'\n'});
          }
        }
      }
      first + rest
  }

  /** Chunks trimmed, empty ones dropped. */
  function Tokens(lines: seq<string>): seq<string> {
    NonEmpty(TrimAll(SplitEach(lines)))
  }

  /** `parseImbs`: split on line breaks, then on `,` and `;`, trim, drop empties.
      Every token is non-empty, trimmed and free of separators. */
  function ParseImbs(rawText: string): (tokens: seq<string>)
    ensures forall i :: 0 <= i < |tokens| ==>
      tokens[i] != [] && IsTrimmed(tokens[i]) && NoneIn(tokens[i], {'\n', ',', ';'})
  {
    if rawText == [] then []
    else
      TokensShape(Lines(rawText));
      Tokens(Lines(rawText))
  }

  lemma {:induction false} TokensShape(lines: seq<string>)
    requires forall j :: 0 <= j < |lines| ==> NoneIn(lines[j], {'\n'})
    ensures forall i :: 0 <= i < |Tokens(lines)| ==>
      Tokens(lines)[i] != [] && IsTrimmed(Tokens(lines)[i]) && NoneIn(Tokens(lines)[i], {'\n', ',', ';'})
  {
    var chunks := SplitEach(lines);
    TrimmedChunksShape(chunks);
    forall i | 0 <= i < |Tokens(lines)|
      ensures NoneIn(Tokens(lines)[i], {'\n', ',', ';'})
    {
      assert Tokens(lines)[i] in TrimAll(chunks);
    }
  }

  /** Trimmed chunks free of separators stay free of them. */
  lemma {:induction false} TrimmedChunksShape(chunks: seq<string>)
    requires forall i :: 0 <= i < |chunks| ==> NoneIn(chunks[i], {'\n'}) && NoneIn(chunks[i], {',', ';'})
    ensures forall t :: t in TrimAll(chunks) ==> NoneIn(t, {'\n', ',', ';'})
  {
    forall t | t in TrimAll(chunks) ensures NoneIn(t, {'\n', ',', ';'}) {
      var k :| 0 <= k < |chunks| && TrimAll(chunks)[k] == t;
      TrimKeepsSeparatorsOut(chunks[k]);
    }
  }

  /** Trimming a chunk free of separators leaves it free of them. */
  lemma {:induction false} TrimKeepsSeparatorsOut(chunk: string)
    requires NoneIn(chunk, {'\n'}) && NoneIn(chunk, {',', ';'})
    ensures NoneIn(Trim(chunk), {'\n', ',', ';'})
  {
    forall c | c in Trim(chunk) ensures c !in {'\n', ',', ';'} {
      TrimSubset(chunk, c);
    }
  }

  /** A character of `Trim(s)` is a character of `s`. */
  lemma {:induction false} TrimSubset(s: string, c: char)
    requires c in Trim(s)
    ensures c in s
  {
    var t := TrimStart(s);
    InTrimEnd(t, c);
    InTrimStart(s, c);
  }

  lemma {:induction false} InTrimStart(s: string, c: char)
    requires c in TrimStart(s)
    ensures c in s
  {
    var r := TrimStart(s);
    var k :| 0 <= k < |r| && r[k] == c;
    assert s[|s| - |r| + k] == c;
  }

  lemma {:induction false} InTrimEnd(s: string, c: char)
    requires c in TrimEnd(s)
    ensures c in s
  {
    var r := TrimEnd(s);
    assert s[..|r|] == s[0..|r|];
    InSlice(s, 0, |r|, c);
  }

  /** A character of a slice is a character of the whole. */
  lemma {:induction false} InSlice(s: string, i: nat, j: nat, c: char)
    requires i <= j <= |s| && c in s[i..j]
    ensures c in s
  {
    var k :| 0 <= k < j - i && s[i..j][k] == c;
    assert s[i + k] == c;
  }

  /** A character of a piece of `Split(s, delims)` is a character of `s`. */
  lemma {:induction false} SplitSubset(s: string, delims: set<char>, i: nat, c: char)
    requires i < |Split(s, delims)| && c in Split(s, delims)[i]
    ensures c in s
  {
    if s != [] {
      var rest := Split(s[1..], delims);
      if s[0] in delims {
        assert i > 0 && Split(s, delims)[i] == rest[i - 1];
        SplitSubset(s[1..], delims, i - 1, c);
      } else if i == 0 {
        if c != s[0] {
          assert c in rest[0];
          SplitSubset(s[1..], delims, 0, c);
        }
      } else {
        assert Split(s, delims)[i] == rest[i];
        SplitSubset(s[1..], delims, i, c);
      }
    }
  }

  // ---------------------------------------------------------------------------
  // What parseImbs keeps, and how it treats joined text

  lemma {:induction false} FilterTrimAll(xs: seq<string>, keep: char -> bool)
    requires forall c :: IsSpace(c) ==> !keep(c)
    ensures Filter(Concat(TrimAll(xs)), keep) == Filter(Concat(xs), keep)
  {
    if xs != [] {
      FilterTrimAll(xs[1..], keep);
      ConcatCons(Trim(xs[0]), TrimAll(xs[1..]));
      FilterAppend(Trim(xs[0]), Concat(TrimAll(xs[1..])), keep);
      FilterAppend(xs[0], Concat(xs[1..]), keep);
      TrimKeeps(xs[0], keep);
    }
  }

  lemma {:induction false} FilterSplitEach(lines: seq<string>, keep: char -> bool)
    requires !keep(',') && !keep(';')
    ensures Filter(Concat(SplitEach(lines)), keep) == Filter(Concat(lines), keep)
  {
    if lines != [] {
      var first := Split(lines[0], {',', ';'});
      FilterSplitEach(lines[1..], keep);
      ConcatAppend(first, SplitEach(lines[1..]));
      FilterAppend(Concat(first), Concat(SplitEach(lines[1..])), keep);
      FilterSplit(lines[0], {',', ';'}, keep);
      FilterAppend(lines[0], Concat(lines[1..]), keep);
    }
  }

  lemma {:induction false} FilterDropCRs(pieces: seq<string>, keep: char -> bool)
    requires !keep('\r')
    ensures Filter(Concat(DropCRs(pieces)), keep) == Filter(Concat(pieces), keep)
  {
    if |pieces| > 1 {
      var p := pieces[0];
      FilterDropCRs(pieces[1..], keep);
      ConcatCons(DropCR(p), DropCRs(pieces[1..]));
      FilterAppend(DropCR(p), Concat(DropCRs(pieces[1..])), keep);
      FilterAppend(p, Concat(pieces[1..]), keep);
      if DropCR(p) != p {
        FilterAppend(DropCR(p), ['\r'], keep);
      }
    }
  }

  /** Parsing loses no content and keeps its order: the non-whitespace
      characters of the tokens, read in order, are exactly the characters of
      the text that are neither whitespace nor `,`/`;`. */
  lemma {:induction false} ParseKeepsContent(rawText: string)
    ensures Filter(Concat(ParseImbs(rawText)), NotSpace) == Filter(rawText, IsTokenContent)
  {
    var tokens := ParseImbs(rawText);
    ParseFiltersContent(rawText);
    TokensSeeOnlyContent(tokens);
  }

  /** Filtering the tokens for token content sees what filtering the text does. */
  lemma {:induction false} ParseFiltersContent(rawText: string)
    ensures Filter(Concat(ParseImbs(rawText)), IsTokenContent) == Filter(rawText, IsTokenContent)
  {
    var tokens := ParseImbs(rawText);
    if rawText != [] {
      var pieces := Split(rawText, {'\n'});
      var chunks := SplitEach(Lines(rawText));
      ConcatNonEmpty(TrimAll(chunks));
      FilterTrimAll(chunks, IsTokenContent);
      FilterSplitEach(Lines(rawText), IsTokenContent);
      FilterDropCRs(pieces, IsTokenContent);
      FilterSplit(rawText, {'\n'}, IsTokenContent);
    }
  }

  /** In tokens free of `,` and `;`, the visible characters are the token content. */
  lemma {:induction false} TokensSeeOnlyContent(tokens: seq<string>)
    requires forall i :: 0 <= i < |tokens| ==> NoneIn(tokens[i], {'\n', ',', ';'})
    ensures Filter(Concat(tokens), NotSpace) == Filter(Concat(tokens), IsTokenContent)
  {
    ConcatNoneIn(tokens, {',', ';'}) by {
      forall i | 0 <= i < |tokens| ensures NoneIn(tokens[i], {',', ';'}) {
        assert NoneIn(tokens[i], {'\n', ',', ';'});
      }
    }
    FilterAgree(Concat(tokens), NotSpace, IsTokenContent) by {
      var all := Concat(tokens);
      forall k | 0 <= k < |all| ensures NotSpace(all[k]) == IsTokenContent(all[k]) {
        assert all[k] in all;
      }
    }
  }

  /** `DropCR` applied to every piece. */
  function DropAll(pieces: seq<string>): (r: seq<string>)
    ensures |r| == |pieces|
  {
    if pieces == [] then [] else [DropCR(pieces[0])] + DropAll(pieces[1..])
  }

  lemma {:induction false} DropAllSnoc(pieces: seq<string>, x: string)
    ensures DropAll(pieces + [x]) == DropAll(pieces) + [DropCR(x)]
  {
    if pieces == [] {
      assert pieces + [x] == [x];
    } else {
      assert (pieces + [x])[1..] == pieces[1..] + [x];
      DropAllSnoc(pieces[1..], x);
    }
  }

  /** Every piece of `ps + qs` but the last is followed by a line feed. */
  lemma {:induction false} DropCRsAppend(ps: seq<string>, qs: seq<string>)
    requires qs != []
    ensures DropCRs(ps + qs) == DropAll(ps) + DropCRs(qs)
  {
    if ps == [] {
      assert ps + qs == qs;
    } else {
      assert (ps + qs)[0] == ps[0] && (ps + qs)[1..] == ps[1..] + qs;
      DropCRsAppend(ps[1..], qs);
    }
  }

  lemma {:induction false} SplitEachAppend(a: seq<string>, b: seq<string>)
    ensures SplitEach(a + b) == SplitEach(a) + SplitEach(b)
  {
    if a == [] {
      assert a + b == b;
    } else {
      assert (a + b)[0] == a[0] && (a + b)[1..] == a[1..] + b;
      SplitEachAppend(a[1..], b);
    }
  }

  lemma {:induction false} TokensAppend(a: seq<string>, b: seq<string>)
    ensures Tokens(a + b) == Tokens(a) + Tokens(b)
  {
    SplitEachAppend(a, b);
    TrimAllAppend(SplitEach(a), SplitEach(b));
    NonEmptyAppend(TrimAll(SplitEach(a)), TrimAll(SplitEach(b)));
  }

  lemma {:induction false} TokensOfLine(line: string)
    ensures Tokens([line]) == NonEmpty(TrimAll(Split(line, {',', ';'})))
  {
    assert SplitEach([line]) == Split(line, {',', ';'}) + [];
    assert Split(line, {',', ';'}) + [] == Split(line, {',', ';'});
  }

  /** A carriage return at the end of a line never reaches a token. */
  lemma {:induction false} TokensDropCR(line: string)
    ensures Tokens([DropCR(line)]) == Tokens([line])
  {
    var m := DropCR(line);
    if m != line {
      var d := {',', ';'};
      assert line == m + ['\r'];
      var p := Split(m, d);
      var n := |p| - 1;
      var init, last := p[..n], p[n];
      SplitSnoc(m, '\r', d);
      assert Split(line, d) == init + [last + ['\r']];
      assert p == init + [last];
      TrimAllAppend(init, [last + ['\r']]);
      TrimAllAppend(init, [last]);
      TrimIgnoresTrailingSpace(last, '\r');
      assert TrimAll([last + ['\r']]) == [Trim(last)] == TrimAll([last]);
      assert TrimAll(Split(line, d)) == TrimAll(p);
      TokensOfLine(line);
      TokensOfLine(m);
    }
  }

  lemma {:induction false} ParseAsTokens(text: string)
    ensures ParseImbs(text) == Tokens(Lines(text))
  {
    if text == [] {
      assert Lines(text) == [""];
      assert SplitEach([""]) == Split("", {',', ';'}) + SplitEach([]);
    }
  }

  /** Text joined with a line feed parses to the tokens of each part, in order. */
  lemma {:induction false} ParseJoinedLines(a: string, b: string)
    ensures ParseImbs(a + "\n" + b) == ParseImbs(a) + ParseImbs(b)
  {
    var pa := Split(a, {'\n'});
    var n := |pa| - 1;
    var init, last := pa[..n], pa[n];
    assert pa == init + [last];
    SplitAround(a, '\n', b, {'\n'});
    DropCRsAppend(pa, Split(b, {'\n'}));
    // the whole text: every line of `a` is followed by a line feed
    assert Lines(a + "\n" + b) == DropAll(pa) + Lines(b);
    DropAllSnoc(init, last);
    // `a` alone: its last line is not
    DropCRsAppend(init, [last]);
    assert Lines(a) == DropAll(init) + [last];
    TokensAppend(DropAll(init) + [DropCR(last)], Lines(b));
    TokensAppend(DropAll(init), [DropCR(last)]);
    TokensAppend(DropAll(init), [last]);
    TokensDropCR(last);
    ParseAsTokens(a + "\n" + b);
    ParseAsTokens(a);
    ParseAsTokens(b);
  }

  /** A well-formed token: non-empty, trimmed, free of separators. */
  predicate IsToken(t: string) {
    t != [] && IsTrimmed(t) && NoneIn(t, {'\n', ',', ';'})
  }

  /** Parsing undoes joining: well-formed tokens joined by any mix of line
      feeds, commas and semicolons parse back to the same tokens, in order. */
  lemma {:induction false} ParseRoundTrip(tokens: seq<string>, seps: string)
    requires |tokens| == |seps| + 1
    requires forall i :: 0 <= i < |tokens| ==> IsToken(tokens[i])
    requires forall k :: 0 <= k < |seps| ==> seps[k] in {'\n', ',', ';'}
    ensures ParseImbs(Interleave(tokens, seps)) == tokens
  {
    var t, others := tokens[0], tokens[1..];
    if seps == [] {
      ParseToken(t);
      assert tokens == [t];
    } else {
      assert tokens == [t] + others;
      var rest := Interleave(others, seps[1..]);
      assert forall i :: 0 <= i < |others| ==> others[i] == tokens[i + 1];
      ParseRoundTrip(others, seps[1..]);
      assert Interleave(tokens, seps) == t + [seps[0]] + rest;
      ParseAfterSeparator(t, seps[0], rest);
    }
  }

  /** A token followed by any separator contributes itself, and the rest of
      the text parses as it would alone. */
  lemma {:induction false} ParseAfterSeparator(t: string, c: char, u: string)
    requires IsToken(t) && c in {'\n', ',', ';'}
    ensures ParseImbs(t + [c] + u) == [t] + ParseImbs(u)
  {
    if c == '\n' {
      ParseToken(t);
      ParseJoinedLines(t, u);
    } else {
      ParseAfterToken(t, c, u);
    }
  }

  /** A well-formed token parses to itself. */
  lemma {:induction false} ParseToken(t: string)
    requires IsToken(t)
    ensures ParseImbs(t) == [t]
  {
    assert NoneIn(t, {'\n'}) && NoneIn(t, {',', ';'}) by {
      forall c | c in t ensures c != '\n' && c != ',' && c != ';' {
        assert c !in {'\n', ',', ';'};
      }
    }
    SplitWhole(t, {',', ';'});
    ParseOneLine(t, [t]);
  }

  /** A token followed by a comma or semicolon contributes itself, and the
      rest of the text parses as it would alone. */
  lemma {:induction false} ParseAfterToken(t: string, c: char, u: string)
    requires IsToken(t) && (c == ',' || c == ';')
    ensures ParseImbs(t + [c] + u) == [t] + ParseImbs(u)
  {
    var x := t + [c];
    var L := Lines(u);
    assert Lines(x + u) == [x + L[0]] + L[1..] by {
      assert NoneIn(x, {'\n'}) by {
        forall ch | ch in x ensures ch != '\n' {
          if ch != c { assert ch in t; assert ch !in {'\n', ',', ';'}; }
        }
      }
      LinesPrepend(x, u);
    }
    calc {
      Tokens(Lines(x + u));
      Tokens([x + L[0]] + L[1..]);
      { TokensAppend([x + L[0]], L[1..]); }
      Tokens([x + L[0]]) + Tokens(L[1..]);
      { TokenThenLine(t, c, L[0]); }
      [t] + Tokens([L[0]]) + Tokens(L[1..]);
      { Associative([t], Tokens([L[0]]), Tokens(L[1..])); }
      [t] + (Tokens([L[0]]) + Tokens(L[1..]));
      { TokensAppend([L[0]], L[1..]); }
      [t] + Tokens([L[0]] + L[1..]);
      { assert [L[0]] + L[1..] == L; }
      [t] + Tokens(L);
    }
    assert t + [c] + u == x + u;
    ParseAsTokens(x + u);
    ParseAsTokens(u);
  }

  /** The first line of `ParseAfterToken`: the token, then whatever the rest begins with. */
  lemma {:induction false} TokenThenLine(t: string, c: char, line: string)
    requires IsToken(t) && (c == ',' || c == ';')
    ensures Tokens([t + [c] + line]) == [t] + Tokens([line])
  {
    var d := {',', ';'};
    assert NoneIn(t, d) by {
      forall ch | ch in t ensures ch !in d { assert ch !in {'\n', ',', ';'}; }
    }
    SplitWhole(t, d);
    SplitAround(t, c, line, d);
    var S := Split(line, d);
    assert Split(t + [c] + line, d) == [t] + S;
    TokensOfLine(t + [c] + line);
    TokensOfLine(line);
    TrimAllAppend([t], S);
    assert TrimAll([t]) == [t];
    NonEmptyAppend([t], TrimAll(S));
    assert NonEmpty([t]) == [t];
  }

  /** A carriage return at the end of `p` is still the last character after
      text is put in front of it. */
  lemma {:induction false} DropCRPrepend(x: string, p: string)
    requires x != [] && x[|x| - 1] != '\r'
    ensures DropCR(x + p) == x + DropCR(p)
  {
    if p == [] {
      assert x + p == x;
    } else {
      assert (x + p)[|x + p| - 1] == p[|p| - 1];
      if p[|p| - 1] == '\r' {
        assert (x + p)[..|x + p| - 1] == x + p[..|p| - 1];
      }
    }
  }

  /** Text without line feeds in front of `u` joins `u`'s first line. */
  lemma {:induction false} LinesPrepend(x: string, u: string)
    requires NoneIn(x, {'\n'})
    requires x != [] && x[|x| - 1] != '\r'
    ensures Lines(x + u) == [x + Lines(u)[0]] + Lines(u)[1..]
  {
    var P := Split(u, {'\n'});
    SplitPrepend(x, u, {'\n'});
    var Q := [x + P[0]] + P[1..];
    assert Split(x + u, {'\n'}) == Q;
    if |P| > 1 {
      DropCRPrepend(x, P[0]);
      assert Q[1..] == P[1..];
      assert DropCRs(Q) == [x + DropCR(P[0])] + DropCRs(P[1..]);
    }
  }

  /** A line holding no line feed parses to its trimmed chunks. */
  lemma {:induction false} ParseOneLine(line: string, chunks: seq<string>)
    requires line != [] && NoneIn(line, {'\n'})
    requires Split(line, {',', ';'}) == chunks
    requires forall i :: 0 <= i < |chunks| ==> chunks[i] != [] && IsTrimmed(chunks[i])
    ensures ParseImbs(line) == chunks
  {
    SplitWhole(line, {'\n'});
    assert Lines(line) == [line];
    assert SplitEach([line]) == chunks + [] == chunks;
    assert TrimAll(chunks) == chunks;
    NonEmptyAll(chunks);
    assert Tokens(Lines(line)) == chunks;
    ParseAsTokens(line);
  }

  lemma {:induction false} NonEmptyAll(ss: seq<string>)
    requires forall i :: 0 <= i < |ss| ==> ss[i] != []
    ensures NonEmpty(ss) == ss
  {
    if ss != [] {
      NonEmptyAll(ss[1..]);
    }
  }

  // ---------------------------------------------------------------------------
  // summarizeWarnings

  /** A token that `summarizeWarnings` reports: rejected for its length or its
      characters (an empty token is rejected but not reported). */
  predicate IsFlagged(imb: string) {
    ValidateImb(imb) == Invalid(Length) || ValidateImb(imb) == Invalid(Charset)
  }

  /** The message `summarizeWarnings` emits for one token, if any. The
      length message quotes the token as given and its length as given, not
      the trimmed ones. */
  function Report(imb: string): Option<string> {
    match ValidateImb(imb)
    case Invalid(Length) => Some(imb + " (length " + Decimal(|imb|) + ")")
    case Invalid(Charset) => Some(imb + " (unsupported characters)")
    case _ => None
  }

  /** A token gets a message exactly when it is flagged, and the message
      starts with the token as given. */
  lemma {:induction false} ReportRules(imb: string)
    ensures Report(imb).Some? <==> IsFlagged(imb)
    ensures Report(imb).Some? ==> imb <= Report(imb).value
  {
  }

  /** `Report` read off a verdict already computed for the token. */
  lemma {:induction false} ReportOfVerdict(imb: string, result: Verdict)
    requires result == ValidateImb(imb)
    ensures result.Invalid? && result.reason == Length ==> Report(imb) == Some(imb + " (length " + Decimal(|imb|) + ")")
    ensures result.Invalid? && result.reason == Charset ==> Report(imb) == Some(imb + " (unsupported characters)")
    ensures result.Ok? || result.reason == Empty ==> Report(imb) == None
  {
  }

  /** What `summarizeWarnings` returns: the messages of the tokens, in order. */
  function Warnings(imbs: seq<string>): seq<string> {
    Collect(imbs, Report)
  }

  /** The body of the loop of `summarizeWarnings` for one token: the
      messages it pushes, none or one. */
  method WarningsFor(imb: string) returns (pushed: seq<string>)
    ensures pushed == if Report(imb).Some? then [Report(imb).value] else []
  {
    pushed := [];
    var result := ValidateImb(imb);
    ReportOfVerdict(imb, result);
    if result != Ok {
      if result.reason == Length {
        pushed := pushed + [imb + " (length " + Decimal(|imb|) + ")"];
      } else if result.reason == Charset {
        pushed := pushed + [imb + " (unsupported characters)"];
      }
    }
  }

  /** `summarizeWarnings`: one pass over the tokens. */
  method SummarizeWarnings(imbs: seq<string>) returns (warnings: seq<string>)
    ensures warnings == Warnings(imbs)
  {
    warnings := [];
    var i := 0;
    while i < |imbs|
      invariant 0 <= i <= |imbs|
      invariant warnings == Warnings(imbs[..i])
    {
      var imb := imbs[i];
      CollectPrefix(imbs, i, Report);
      var pushed := WarningsFor(imb);
      warnings := warnings + pushed;
      i := i + 1;
    }
    assert imbs[..|imbs|] == imbs;
  }

  /** `summarizeWarnings` emits exactly one message per reported token, in the
      order of the tokens, and nothing for valid or empty ones. */
  lemma {:induction false} WarningsOnePerFlagged(imbs: seq<string>)
    ensures |Warnings(imbs)| == |Positions(imbs, IsFlagged)|
    ensures forall i :: 0 <= i < |Warnings(imbs)| ==>
      Warnings(imbs)[i] == Report(imbs[Positions(imbs, IsFlagged)[i]]).value
  {
    forall x ensures IsFlagged(x) == Report(x).Some? {
      ReportRules(x);
    }
    CollectAtPositions(imbs, Report, IsFlagged);
  }

  /** A normalized list holding one too-short token and one clean token
      yields exactly one warning, and it names the short token. */
  lemma {:induction false} WarningsShortAndClean(short: string, clean: string)
    requires short != [] && IsTrimmed(short) && |short| < ImbMinLen
    requires ValidateImb(clean) == Ok
    ensures Warnings([short, clean]) == [short + " (length " + Decimal(|short|) + ")"]
    ensures Warnings([clean, short]) == [short + " (length " + Decimal(|short|) + ")"]
  {
    var m := short + " (length " + Decimal(|short|) + ")";
    assert Trim(short) == short;
    ReportOfVerdict(short, Invalid(Length));
    ReportOfVerdict(clean, Ok);
    CollectPair(short, clean, Report);
    CollectPair(clean, short, Report);
  }
}
