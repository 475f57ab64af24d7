/** The functions of Go's `bytes` and `strings` packages that the annotation
    engine calls, stated over byte sequences. A Go `string` and a Go `[]byte`
    are both a `Bytes` here: every length and offset is a byte count. */
module Bytes {

  newtype byte = x: int | 0 <= x < 256

  type Bytes = seq<byte>

  /** `sub` occurs in `s` at offset `k`. */
  predicate IsAt(s: Bytes, sub: Bytes, k: int)
  {
    0 <= k && k + |sub| <= |s| && s[k..k + |sub|] == sub
  }

  /** `sub` occurs at `k` and at no smaller offset. */
  predicate IsFirstAt(s: Bytes, sub: Bytes, k: int)
  {
    IsAt(s, sub, k) && forall j :: 0 <= j < k ==> !IsAt(s, sub, j)
  }

  /** bytes.HasPrefix / strings.HasPrefix */
  predicate HasPrefix(s: Bytes, p: Bytes)
  {
    |p| <= |s| && s[..|p|] == p
  }

  /** bytes.HasSuffix / strings.HasSuffix */
  predicate HasSuffix(s: Bytes, p: Bytes)
  {
    |p| <= |s| && s[|s| - |p|..] == p
  }

  /** strings.TrimPrefix: drops `p` once from the front of `s` if it is there. */
  function TrimPrefix(s: Bytes, p: Bytes): (r: Bytes)
    ensures HasPrefix(s, p) ==> p + r == s
    ensures !HasPrefix(s, p) ==> r == s
  {
    if HasPrefix(s, p) then s[|p|..] else s
  }

  /** The first offset at or after `from` where `sub` occurs, or -1. */
  function IndexFrom(s: Bytes, sub: Bytes, from: nat): (r: int)
    requires from <= |s|
    ensures r == -1 || (from <= r <= |s| && IsAt(s, sub, r))
    ensures forall k :: from <= k && (r == -1 || k < r) ==> !IsAt(s, sub, k)
    decreases |s| - from
  {
    if IsAt(s, sub, from) then from
    else if from == |s| then -1
    else IndexFrom(s, sub, from + 1)
  }

  /** bytes.Index: the offset of the first occurrence of `sub` in `s`, or -1.
      An empty `sub` is found at 0. */
  function Index(s: Bytes, sub: Bytes): (r: int)
    ensures r == -1 <==> forall k :: !IsAt(s, sub, k)
    ensures r != -1 ==> IsFirstAt(s, sub, r)
  {
    IndexFrom(s, sub, 0)
  }

  /** bytes.Contains / strings.Contains */
  predicate Contains(s: Bytes, sub: Bytes)
  {
    Index(s, sub) != -1
  }

  /** An occurrence of `sub` inside a slice of `s` is an occurrence in `s`. */
  lemma IsAtShift(s: Bytes, t: Bytes, sub: Bytes, i: int, j: int)
    requires IsAt(s, t, j) && IsAt(t, sub, i)
    ensures IsAt(s, sub, i + j)
  {
    assert t == s[j..j + |t|];
    forall m | 0 <= m < |sub| ensures s[i + j + m] == sub[m] {
      assert sub[m] == t[i + m];
    }
  }

  /** An occurrence in `s` is an occurrence in `p + s`, |p| further on. */
  lemma IsAtAfter(p: Bytes, s: Bytes, sub: Bytes, j: int)
    requires 0 <= j
    ensures IsAt(p + s, sub, j + |p|) <==> IsAt(s, sub, j)
  {
    if j + |sub| <= |s| {
      assert (p + s)[j + |p|..j + |p| + |sub|] == s[j..j + |sub|];
    }
  }

  /** The first occurrence in `s` stays the first in `w + " " + s` when
      `sub` does not start anywhere inside `w + " "`. */
  lemma FirstAtAfter(w: Bytes, s: Bytes, sub: Bytes, k: int)
    requires IsFirstAt(s, sub, k)
    requires forall j :: 0 <= j <= |w| ==> !IsAt(w + [32] + s, sub, j)
    ensures IsFirstAt(w + [32] + s, sub, k + |w| + 1)
  {
    var p := w + [32];
    assert w + [32] + s == p + s;
    IsAtAfter(p, s, sub, k);
    forall j | |p| <= j < k + |p| ensures !IsAt(p + s, sub, j) {
      IsAtAfter(p, s, sub, j - |p|);
    }
  }

  /** `sub` cannot start where its first byte is not. */
  lemma NotAtFirstByte(s: Bytes, sub: Bytes, j: int)
    requires sub != [] && 0 <= j < |s| && s[j] != sub[0]
    ensures !IsAt(s, sub, j)
  {
  }

  /** A one-byte sequence occurs exactly where that byte does. */
  lemma ContainsByte(s: Bytes, b: byte)
    ensures Contains(s, [b]) <==> exists k :: 0 <= k < |s| && s[k] == b
  {
    if exists k :: 0 <= k < |s| && s[k] == b {
      var k :| 0 <= k < |s| && s[k] == b;
      assert IsAt(s, [b], k);
    }
    if Contains(s, [b]) {
      var k := Index(s, [b]);
      assert s[k..k + 1][0] == s[k];
    }
  }

  /** Number of leading bytes of `s` that belong to `cut`. */
  function LeadIn(s: Bytes, cut: Bytes): (n: nat)
    ensures n <= |s|
    ensures forall i :: 0 <= i < n ==> s[i] in cut
    ensures n < |s| ==> s[n] !in cut
  {
    if s == [] || s[0] !in cut then 0 else 1 + LeadIn(s[1..], cut)
  }

  /** Number of trailing bytes of `s` that belong to `cut`. */
  function TrailIn(s: Bytes, cut: Bytes): (n: nat)
    ensures n <= |s|
    ensures forall i :: |s| - n <= i < |s| ==> s[i] in cut
    ensures n < |s| ==> s[|s| - 1 - n] !in cut
  {
    if s == [] || s[|s| - 1] !in cut then 0 else 1 + TrailIn(s[..|s| - 1], cut)
  }

  /** bytes.Trim with an ASCII cutset: drops every leading and every trailing
      byte that belongs to `cut`. */
  function Trim(s: Bytes, cut: Bytes): (r: Bytes)
    ensures IsAt(s, r, LeadIn(s, cut))
    ensures forall i :: 0 <= i < LeadIn(s, cut) ==> s[i] in cut
    ensures forall i :: LeadIn(s, cut) + |r| <= i < |s| ==> s[i] in cut
    ensures r != [] ==> r[0] !in cut && r[|r| - 1] !in cut
  {
    var t := s[LeadIn(s, cut)..];
    t[..|t| - TrailIn(t, cut)]
  }

  /** The ASCII whitespace bytes of bytes.Fields: tab, LF, VT, FF, CR, space. */
  predicate IsSpace(b: byte)
  {
    b == 9 || b == 10 || b == 11 || b == 12 || b == 13 || b == 32
  }

  /** The end of the run of non-space bytes that starts at `i`. */
  function RunEnd(s: Bytes, i: nat): (j: nat)
    requires i <= |s|
    ensures i <= j <= |s|
    ensures forall k :: i <= k < j ==> !IsSpace(s[k])
    ensures j < |s| ==> IsSpace(s[j])
    decreases |s| - i
  {
    if i == |s| || IsSpace(s[i]) then i else RunEnd(s, i + 1)
  }

  /** Half-open byte range [lo, hi) of a field. */
  datatype Span = Span(lo: nat, hi: nat)

  /** `sp` is a maximal, non-empty run of non-space bytes of `s`. */
  predicate IsFieldSpan(s: Bytes, sp: Span)
  {
    sp.lo < sp.hi <= |s|
    && (forall k :: sp.lo <= k < sp.hi ==> !IsSpace(s[k]))
    && (sp.lo == 0 || IsSpace(s[sp.lo - 1]))
    && (sp.hi == |s| || IsSpace(s[sp.hi]))
  }

  /** The field spans of `s` from offset `i` on, left to right. */
  function SpansFrom(s: Bytes, i: nat): (r: seq<Span>)
    requires i <= |s|
    requires i == 0 || IsSpace(s[i - 1])
    ensures forall k :: 0 <= k < |r| ==> i <= r[k].lo < r[k].hi <= |s|
    decreases |s| - i
  {
    if i == |s| then []
    else if IsSpace(s[i]) then SpansFrom(s, i + 1)
    else
      var j := RunEnd(s, i);
      [Span(i, j)] + (if j == |s| then [] else SpansFrom(s, j + 1))
  }

  /** Every span of `r` is a field span of `s`, and they ascend without
      touching. */
  predicate SoundSpans(s: Bytes, r: seq<Span>)
  {
    && (forall k :: 0 <= k < |r| ==> IsFieldSpan(s, r[k]))
    && (forall j, k :: 0 <= j < k < |r| ==> r[j].hi < r[k].lo)
  }

  /** SpansFrom yields sound spans. */
  lemma {:induction false} SpansFromSound(s: Bytes, i: nat)
    requires i <= |s|
    requires i == 0 || IsSpace(s[i - 1])
    ensures SoundSpans(s, SpansFrom(s, i))
    decreases |s| - i
  {
    if i == |s| {
      assert SpansFrom(s, i) == [];
    } else if IsSpace(s[i]) {
      SpansFromSound(s, i + 1);
      assert SpansFrom(s, i) == SpansFrom(s, i + 1);
    } else {
      var j := RunEnd(s, i);
      if j < |s| {
        SpansFromSound(s, j + 1);
      }
      SoundRunStep(s, i, j);
    }
  }

  /** The step of SpansFromSound at a run of non-space bytes ending at `j`. */
  lemma SoundRunStep(s: Bytes, i: nat, j: nat)
    requires i < |s| && (i == 0 || IsSpace(s[i - 1])) && !IsSpace(s[i])
    requires j == RunEnd(s, i)
    requires j < |s| ==> SoundSpans(s, SpansFrom(s, j + 1))
    ensures SoundSpans(s, SpansFrom(s, i))
  {
    SpansFromRun(s, i, j);
    assert IsFieldSpan(s, Span(i, j));
    if j < |s| {
      var rest := SpansFrom(s, j + 1);
      ConsFieldSpans(s, Span(i, j), rest);
      assert SpansFrom(s, i) == [Span(i, j)] + rest;
    } else {
      ConsFieldSpans(s, Span(i, j), []);
      assert SpansFrom(s, i) == [Span(i, j)] + [];
    }
  }

  /** A field span in front of sound spans that start after it. */
  lemma ConsFieldSpans(s: Bytes, x: Span, rest: seq<Span>)
    requires IsFieldSpan(s, x) && SoundSpans(s, rest)
    requires forall k :: 0 <= k < |rest| ==> x.hi < rest[k].lo
    ensures SoundSpans(s, [x] + rest)
  {
    var r := [x] + rest;
    forall k | 0 < k < |r| ensures r[k] == rest[k - 1] {
    }
  }

  /** Some span of `r` contains offset `p`. */
  predicate Covers(r: seq<Span>, p: nat)
  {
    exists k :: 0 <= k < |r| && r[k].lo <= p < r[k].hi
  }

  /** Every non-space byte from `i` on lies in one of the spans. */
  lemma {:induction false} SpansFromCover(s: Bytes, i: nat, p: nat)
    requires i <= p < |s| && (i == 0 || IsSpace(s[i - 1])) && !IsSpace(s[p])
    ensures Covers(SpansFrom(s, i), p)
    decreases |s| - i
  {
    if IsSpace(s[i]) {
      SpansFromCover(s, i + 1, p);
    } else if p < RunEnd(s, i) {
      assert SpansFrom(s, i)[0] == Span(i, RunEnd(s, i));
    } else {
      var j := RunEnd(s, i);
      SpansFromCover(s, j + 1, p);
      CoversCons(Span(i, j), SpansFrom(s, j + 1), p);
    }
  }

  lemma CoversCons(sp: Span, r: seq<Span>, p: nat)
    requires Covers(r, p)
    ensures Covers([sp] + r, p)
  {
    var k :| 0 <= k < |r| && r[k].lo <= p < r[k].hi;
    assert ([sp] + r)[k + 1] == r[k];
  }

  /** The spans of bytes.Fields(s). */
  function Spans(s: Bytes): seq<Span>
  {
    SpansFrom(s, 0)
  }

  /** bytes.Fields over ASCII whitespace: the maximal runs of non-space
      bytes, in order. */
  function Fields(s: Bytes): (r: seq<Bytes>)
    ensures |r| == |Spans(s)|
    ensures forall k :: 0 <= k < |r| ==> r[k] == s[Spans(s)[k].lo..Spans(s)[k].hi]
  {
    var sp := Spans(s);
    seq(|sp|, k requires 0 <= k < |sp| => s[sp[k].lo..sp[k].hi])
  }

  /** Every field is a non-empty, space-free slice of `s`, found at its span. */
  lemma FieldsAreSlices(s: Bytes, k: int)
    requires 0 <= k < |Fields(s)|
    ensures Fields(s)[k] != []
    ensures forall m :: 0 <= m < |Fields(s)[k]| ==> !IsSpace(Fields(s)[k][m])
    ensures IsAt(s, Fields(s)[k], Spans(s)[k].lo)
  {
    var sp := Spans(s)[k];
    SpansFromSound(s, 0);
    assert IsFieldSpan(s, SpansFrom(s, 0)[k]);
    SpanSlice(s, sp);
  }

  /** The bytes of a field span are a non-empty, space-free slice at its start. */
  lemma SpanSlice(s: Bytes, sp: Span)
    requires IsFieldSpan(s, sp)
    ensures s[sp.lo..sp.hi] != []
    ensures forall m :: 0 <= m < sp.hi - sp.lo ==> !IsSpace(s[sp.lo..sp.hi][m])
    ensures IsAt(s, s[sp.lo..sp.hi], sp.lo)
  {
    var f := s[sp.lo..sp.hi];
    forall m | 0 <= m < |f| ensures !IsSpace(f[m]) {
      assert f[m] == s[sp.lo + m];
    }
  }

  /** Every non-space byte of `s` lies inside some field's span. */
  lemma FieldsCover(s: Bytes, p: nat)
    requires p < |s| && !IsSpace(s[p])
    ensures Covers(Spans(s), p)
  {
    SpansFromCover(s, 0, p);
  }

  // ---------------------------------------------------------------------
  // Fields of words joined by spaces

  /** A non-empty run of non-space bytes. */
  predicate IsWord(w: Bytes)
  {
    w != [] && forall k :: 0 <= k < |w| ==> !IsSpace(w[k])
  }

  /** The words joined by single spaces, as strings.Join(ws, " ") builds them. */
  function Unwords(ws: seq<Bytes>): Bytes
  {
    if ws == [] then []
    else if |ws| == 1 then ws[0]
    else ws[0] + [32] + Unwords(ws[1..])
  }

  /** One step of Unwords on two or more words. */
  lemma UnwordsCons(ws: seq<Bytes>)
    requires |ws| > 1
    ensures Unwords(ws) == ws[0] + [32] + Unwords(ws[1..])
  {
  }

  /** Splitting words joined by single spaces gives back the words: Fields
      undoes Unwords. */
  lemma FieldsOfUnwords(ws: seq<Bytes>)
    requires forall k :: 0 <= k < |ws| ==> IsWord(ws[k])
    ensures Fields(Unwords(ws)) == ws
  {
    var s := Unwords(ws);
    if ws == [] {
      assert Spans(s) == [];
    } else {
      SpansOfWords(s, 0, ws);
      var f := Fields(s);
      forall k | 0 <= k < |f| ensures f[k] == ws[k] {
        assert f[k] == s[SpansFrom(s, 0)[k].lo..SpansFrom(s, 0)[k].hi];
      }
    }
  }

  /** The spans `r` of `s` hold the words `ws`, one word per span. */
  predicate HoldsWords(s: Bytes, r: seq<Span>, ws: seq<Bytes>)
  {
    |r| == |ws| && forall k :: 0 <= k < |r| ==> r[k].lo <= r[k].hi <= |s| && s[r[k].lo..r[k].hi] == ws[k]
  }

  /** The field spans from offset `o` of a text that holds words joined by
      single spaces from `o` on: one span per word, holding that word. */
  lemma {:induction false} SpansOfWords(s: Bytes, o: nat, ws: seq<Bytes>)
    requires ws != [] && forall k :: 0 <= k < |ws| ==> IsWord(ws[k])
    requires o <= |s| && (o == 0 || IsSpace(s[o - 1]))
    requires s[o..] == Unwords(ws)
    ensures HoldsWords(s, SpansFrom(s, o), ws)
    decreases |ws|
  {
    if |ws| > 1 {
      NextWord(s, o, ws);
      SpansOfWords(s, o + |ws[0]| + 1, ws[1..]);
    }
    WordsStep(s, o, ws);
  }

  /** The step of SpansOfWords at the first word. */
  lemma WordsStep(s: Bytes, o: nat, ws: seq<Bytes>)
    requires ws != [] && IsWord(ws[0])
    requires o <= |s| && (o == 0 || IsSpace(s[o - 1]))
    requires s[o..] == Unwords(ws)
    requires |ws| > 1 ==> o + |ws[0]| < |s| && IsSpace(s[o + |ws[0]|])
                          && HoldsWords(s, SpansFrom(s, o + |ws[0]| + 1), ws[1..])
    ensures HoldsWords(s, SpansFrom(s, o), ws)
  {
    var e := o + |ws[0]|;
    WordAt(s, o, ws);
    RunEndAt(s, o, e);
    SpansFromRun(s, o, e);
    if |ws| == 1 {
      assert SpansFrom(s, o) == [Span(o, e)];
    } else {
      var rest := SpansFrom(s, e + 1);
      WordSpansCons(s, Span(o, e), rest, ws);
      assert SpansFrom(s, o) == [Span(o, e)] + rest;
    }
  }

  /** A span holding the first word in front of spans holding the rest. */
  lemma WordSpansCons(s: Bytes, x: Span, rest: seq<Span>, ws: seq<Bytes>)
    requires ws != [] && x.lo <= x.hi <= |s| && s[x.lo..x.hi] == ws[0]
    requires HoldsWords(s, rest, ws[1..])
    ensures HoldsWords(s, [x] + rest, ws)
  {
    var r := [x] + rest;
    forall k | 0 < k < |r| ensures s[r[k].lo..r[k].hi] == ws[k] {
      assert r[k] == rest[k - 1];
      assert ws[k] == ws[1..][k - 1];
    }
  }

  /** The first word of the text from `o` is a run of non-space bytes there,
      followed by a space or by the end of the text. */
  lemma WordAt(s: Bytes, o: nat, ws: seq<Bytes>)
    requires ws != [] && IsWord(ws[0])
    requires o <= |s| && s[o..] == Unwords(ws)
    ensures o + |ws[0]| <= |s| && s[o..o + |ws[0]|] == ws[0]
    ensures forall k :: o <= k < o + |ws[0]| ==> !IsSpace(s[k])
    ensures |ws| == 1 ==> o + |ws[0]| == |s|
    ensures |ws| > 1 ==> o + |ws[0]| < |s| && s[o + |ws[0]|] == 32
  {
    var w := ws[0];
    var u := Unwords(ws);
    if |ws| > 1 {
      assert u == w + [32] + Unwords(ws[1..]);
      assert u[|w|] == 32;
    }
    assert u[..|w|] == w;
    assert s[o..o + |w|] == u[..|w|];
    forall k | o <= k < o + |w| ensures !IsSpace(s[k]) {
      assert s[k] == w[k - o];
    }
  }

  /** Past the first word and its space, the text holds the other words. */
  lemma NextWord(s: Bytes, o: nat, ws: seq<Bytes>)
    requires |ws| > 1
    requires o <= |s| && s[o..] == Unwords(ws)
    ensures o + |ws[0]| + 1 <= |s| && s[o + |ws[0]|] == 32
    ensures s[o + |ws[0]| + 1..] == Unwords(ws[1..])
  {
    var w := ws[0];
    var u := Unwords(ws);
    assert u == w + [32] + Unwords(ws[1..]);
    assert u[|w|] == 32;
    assert u[|w| + 1..] == Unwords(ws[1..]);
    assert s[o + |w| + 1..] == u[|w| + 1..];
  }

  /** RunEnd is the first space at or after `i`, or the end of `s`. */
  lemma RunEndAt(s: Bytes, i: nat, j: nat)
    requires i <= j <= |s|
    requires forall k :: i <= k < j ==> !IsSpace(s[k])
    requires j < |s| ==> IsSpace(s[j])
    ensures RunEnd(s, i) == j
  {
  }

  /** SpansFrom at the first byte of a field that ends at `j`. */
  lemma SpansFromRun(s: Bytes, i: nat, j: nat)
    requires i < |s| && (i == 0 || IsSpace(s[i - 1])) && !IsSpace(s[i])
    requires j == RunEnd(s, i)
    ensures j < |s| ==> SpansFrom(s, i) == [Span(i, j)] + SpansFrom(s, j + 1)
    ensures j == |s| ==> SpansFrom(s, i) == [Span(i, j)]
  {
  }

}
