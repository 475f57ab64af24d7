/** The Expander of expander.go: rewrites text note by note, in the order the
    notes are given, and moves the start of every later note by the change
    in length. */
module Expander {

  import opened Bytes
  import opened Anno

  /** Rewrite functions by note kind (Go's Expander map). */
  type Rewrites = map<string, Bytes -> Bytes>

  /** The text and the notes between two iterations of Expand's loop. */
  datatype State = State(text: Bytes, notes: seq<Note>)

  /** The note's span lies inside `s`, so Go's slicing does not panic. */
  predicate InText(n: Note, s: Bytes)
  {
    0 <= n.start && n.End() <= |s|
  }

  /** The change in text length that rewriting `n` causes; zero for a note
      whose kind has no rewrite. */
  function Delta(e: Rewrites, n: Note): int
  {
    if n.kind in e then |e[n.kind](n.val)| - |n.val| else 0
  }

  /** `ns` with every start moved by `d`. */
  function Shift(ns: seq<Note>, d: int): (r: seq<Note>)
    ensures |r| == |ns|
    ensures forall k :: 0 <= k < |ns| ==> r[k] == ns[k].(start := ns[k].start + d)
  {
    seq(|ns|, k requires 0 <= k < |ns| => ns[k].(start := ns[k].start + d))
  }

  /** Iteration `i` can run without a slicing panic. */
  predicate CanStep(e: Rewrites, st: State, i: nat)
  {
    i < |st.notes| && (st.notes[i].kind in e ==> InText(st.notes[i], st.text))
  }

  /** One iteration of Expand's loop, on note `i`. */
  function Step(e: Rewrites, st: State, i: nat): (r: State)
    requires CanStep(e, st, i)
    ensures |r.notes| == |st.notes|
    ensures forall k :: 0 <= k < |r.notes| ==> r.notes[k].val == st.notes[k].val && r.notes[k].kind == st.notes[k].kind
    ensures forall k :: 0 <= k <= i ==> r.notes[k] == st.notes[k]
    ensures forall k :: i < k < |r.notes| ==> r.notes[k].start == st.notes[k].start + Delta(e, st.notes[i])
    ensures |r.text| == |st.text| + Delta(e, st.notes[i])
    ensures st.notes[i].kind !in e ==> r == st
    ensures st.notes[i].kind in e ==>
              var n := st.notes[i];
              r.text == st.text[..n.start] + e[n.kind](n.val) + st.text[n.End()..]
  {
    var n := st.notes[i];
    if n.kind !in e then st
    else
      var insert := e[n.kind](n.val);
      State(st.text[..n.start] + insert + st.text[n.End()..],
            st.notes[..i + 1] + Shift(st.notes[i + 1..], |insert| - |n.val|))
  }

  /** Iterations `i` onwards run without a slicing panic. */
  predicate Runs(e: Rewrites, st: State, i: nat)
    requires i <= |st.notes|
    decreases |st.notes| - i
  {
    i == |st.notes| || (CanStep(e, st, i) && Runs(e, Step(e, st, i), i + 1))
  }

  /** The state after iterations `i` onwards. */
  function RunFrom(e: Rewrites, st: State, i: nat): (r: State)
    requires i <= |st.notes| && Runs(e, st, i)
    ensures |r.notes| == |st.notes|
    decreases |st.notes| - i
  {
    if i == |st.notes| then st else RunFrom(e, Step(e, st, i), i + 1)
  }

  /** The text and notes Expand leaves behind. */
  function Expanded(e: Rewrites, s: Bytes, ns: seq<Note>): State
    requires Runs(e, State(s, ns), 0)
  {
    RunFrom(e, State(s, ns), 0)
  }

  /** Expand: the rewritten text, with the starts of the notes array updated
      in place, as expander.go updates them through its note pointers. */
  method Expand(e: Rewrites, s: Bytes, notes: array<Note>) returns (r: Bytes)
    requires Runs(e, State(s, notes[..]), 0)
    modifies notes
    ensures State(r, notes[..]) == Expanded(e, s, old(notes[..]))
    ensures notes.Length == 0 ==> r == s
  {
    r := s;
    var i := 0;
    while i < notes.Length
      invariant 0 <= i <= notes.Length
      invariant Runs(e, State(r, notes[..]), i)
      invariant RunFrom(e, State(r, notes[..]), i) == Expanded(e, s, old(notes[..]))
    {
      var note := notes[i];
      ghost var before := State(r, notes[..]);
      if note.kind in e {
        var insert := e[note.kind](note.val);
        r := r[..note.start] + insert + r[note.End()..];
        if i < notes.Length - 1 {
          ShiftLater(notes, i, |insert| - |note.val|);
        }
        assert notes[..] == Step(e, before, i).notes;
      }
      assert State(r, notes[..]) == Step(e, before, i);
      i := i + 1;
    }
  }

  /** The inner loop of Expand: moves the start of every note after `i` by
      `offset`, in place. */
  method ShiftLater(notes: array<Note>, i: nat, offset: int)
    requires i < notes.Length
    modifies notes
    ensures notes[..] == old(notes[..])[..i + 1] + Shift(old(notes[..])[i + 1..], offset)
  {
    var j := 0;
    while j < notes.Length - (i + 1)
      invariant 0 <= j <= notes.Length - (i + 1)
      invariant forall k :: 0 <= k < i + 1 ==> notes[k] == old(notes[k])
      invariant forall k :: i + 1 <= k < i + 1 + j ==> notes[k] == old(notes[k]).(start := old(notes[k]).start + offset)
      invariant forall k :: i + 1 + j <= k < notes.Length ==> notes[k] == old(notes[k])
    {
      var jj := j + i + 1;
      notes[jj] := notes[jj].(start := notes[jj].start + offset);
      j := j + 1;
    }
  }

  // ---------------------------------------------------------------------
  // What Expand computes

  /** The total change in length over the notes whose kind has a rewrite. */
  function SumDelta(e: Rewrites, ns: seq<Note>): int
  {
    if ns == [] then 0 else Delta(e, ns[0]) + SumDelta(e, ns[1..])
  }

  /** The sum depends only on each note's value and kind, not on its start. */
  lemma {:induction false} SumDeltaIgnoresStarts(e: Rewrites, a: seq<Note>, b: seq<Note>)
    requires |a| == |b|
    requires forall k :: 0 <= k < |a| ==> a[k].val == b[k].val && a[k].kind == b[k].kind
    ensures SumDelta(e, a) == SumDelta(e, b)
  {
    if a != [] {
      SumDeltaIgnoresStarts(e, a[1..], b[1..]);
    }
  }

  /** The same for the notes between `lo` and `hi` of two note lists that
      agree on every value and kind. */
  lemma SumDeltaIgnoresStartsOn(e: Rewrites, a: seq<Note>, b: seq<Note>, lo: nat, hi: nat)
    requires |a| == |b| && lo <= hi <= |a|
    requires forall k :: 0 <= k < |a| ==> a[k].val == b[k].val && a[k].kind == b[k].kind
    ensures SumDelta(e, a[lo..hi]) == SumDelta(e, b[lo..hi])
  {
    var x, y := a[lo..hi], b[lo..hi];
    forall k | 0 <= k < |x| ensures x[k].val == y[k].val && x[k].kind == y[k].kind {
      assert x[k] == a[lo + k] && y[k] == b[lo + k];
    }
    SumDeltaIgnoresStarts(e, x, y);
  }

  /** The output is as long as the input plus, for every rewritten note, the
      length of its rewrite less the length of its value. */
  lemma {:induction false} ExpandedLength(e: Rewrites, st: State, i: nat)
    requires i <= |st.notes| && Runs(e, st, i)
    ensures |RunFrom(e, st, i).text| == |st.text| + SumDelta(e, st.notes[i..])
    decreases |st.notes| - i
  {
    if i < |st.notes| {
      var st' := Step(e, st, i);
      ExpandedLength(e, st', i + 1);
      SumDeltaIgnoresStarts(e, st'.notes[i + 1..], st.notes[i + 1..]);
      assert st.notes[i..][1..] == st.notes[i + 1..];
    }
  }

  /** Expand never reorders, adds or drops notes, and never changes a value
      or a kind. The notes already processed stay as they are, and every
      later note ends up moved by the total length change of the rewritten
      notes before it, in any note order. */
  lemma ExpandedKeepsNotes(e: Rewrites, st: State, i: nat)
    requires i <= |st.notes| && Runs(e, st, i)
    ensures var r := RunFrom(e, st, i);
            && |r.notes| == |st.notes|
            && (forall k :: 0 <= k < |r.notes| ==> r.notes[k].val == st.notes[k].val && r.notes[k].kind == st.notes[k].kind)
            && (forall k :: 0 <= k < i ==> r.notes[k] == st.notes[k])
            && (forall k :: i <= k < |r.notes| ==> r.notes[k].start == st.notes[k].start + SumDelta(e, st.notes[i..k]))
  {
    RunKeepsNotes(e, st, i);
  }

  /** What ExpandedKeepsNotes states about the notes `r` of a run from `i`. */
  predicate KeepsNotes(e: Rewrites, st: State, i: nat, r: State)
    requires i <= |st.notes|
  {
    && |r.notes| == |st.notes|
    && (forall k :: 0 <= k < |r.notes| ==> r.notes[k].val == st.notes[k].val && r.notes[k].kind == st.notes[k].kind)
    && (forall k :: 0 <= k < i ==> r.notes[k] == st.notes[k])
    && (forall k :: i <= k < |r.notes| ==> r.notes[k].start == st.notes[k].start + SumDelta(e, st.notes[i..k]))
  }

  lemma {:induction false} RunKeepsNotes(e: Rewrites, st: State, i: nat)
    requires i <= |st.notes| && Runs(e, st, i)
    ensures KeepsNotes(e, st, i, RunFrom(e, st, i))
    decreases |st.notes| - i
  {
    if i == |st.notes| {
      assert RunFrom(e, st, i) == st;
    } else {
      var st' := Step(e, st, i);
      RunKeepsNotes(e, st', i + 1);
      var r := RunFrom(e, st', i + 1);
      assert RunFrom(e, st, i) == r;
      KeepsNotesStep(e, st, i, r);
    }
  }

  /** One iteration in front of a run that keeps the notes keeps them too. */
  lemma KeepsNotesStep(e: Rewrites, st: State, i: nat, r: State)
    requires CanStep(e, st, i)
    requires KeepsNotes(e, Step(e, st, i), i + 1, r)
    ensures KeepsNotes(e, st, i, r)
  {
    var st' := Step(e, st, i);
    forall k | i <= k < |r.notes|
      ensures r.notes[k].start == st.notes[k].start + SumDelta(e, st.notes[i..k])
    {
      if k == i {
        assert st.notes[i..k] == [];
      } else {
        SumDeltaIgnoresStartsOn(e, st'.notes, st.notes, i + 1, k);
        assert st.notes[i..k][0] == st.notes[i];
        assert st.notes[i..k][1..] == st.notes[i + 1..k];
      }
    }
  }

  // ---------------------------------------------------------------------
  // Expansion as independent replacement

  /** Notes that lie inside `s` in ascending order without overlapping. */
  predicate Disjoint(s: Bytes, ns: seq<Note>)
  {
    && (forall k :: 0 <= k < |ns| ==> InText(ns[k], s))
    && (forall j, k :: 0 <= j < k < |ns| ==> ns[j].End() <= ns[k].start)
  }

  /** The replacement of one note's span of the original text: its rewrite,
      or, when its kind has none, the original bytes of the span. */
  function Rewrite(e: Rewrites, s: Bytes, n: Note): Bytes
    requires InText(n, s)
  {
    if n.kind in e then e[n.kind](n.val) else s[n.start..n.End()]
  }

  /** The original text from `from` on with each note's span replaced
      independently, built left to right from the original offsets. */
  function Replaced(e: Rewrites, s: Bytes, ns: seq<Note>, from: nat): Bytes
    requires from <= |s| && Disjoint(s, ns)
    requires ns != [] ==> from <= ns[0].start
    decreases |ns|
  {
    if ns == [] then s[from..]
    else s[from..ns[0].start] + Rewrite(e, s, ns[0]) + Replaced(e, s, ns[1..], ns[0].End())
  }

  /** The loop invariant behind the main theorem: after the notes before `i`,
      the text is some output `p` followed by the untouched original from
      `from`, and every later note has moved by |p| - from. */
  lemma {:induction false} RunReplaces(e: Rewrites, s: Bytes, ns: seq<Note>, i: nat, st: State, p: Bytes, from: nat)
    requires Disjoint(s, ns) && i <= |ns| && |st.notes| == |ns| && Disjoint(s, ns[i..])
    requires from <= |s| && forall k :: i <= k < |ns| ==> from <= ns[k].start
    requires st.text == p + s[from..]
    requires forall k :: i <= k < |ns| ==> st.notes[k] == ns[k].(start := ns[k].start + |p| - from)
    ensures Runs(e, st, i)
    ensures RunFrom(e, st, i).text == p + Replaced(e, s, ns[i..], from)
    decreases |ns| - i
  {
    if i == |ns| {
      assert ns[i..] == [];
    } else {
      var n := ns[i];
      var w := Rewrite(e, s, n);
      var p' := p + s[from..n.start] + w;
      StepReplaces(e, s, ns, i, st, p, from);
      var st' := Step(e, st, i);
      DisjointSuffix(s, ns, i + 1);
      var rest := Replaced(e, s, ns[i + 1..], n.End());
      assert Runs(e, st', i + 1) && RunFrom(e, st', i + 1).text == p' + rest by {
        RunReplaces(e, s, ns, i + 1, st', p', n.End());
      }
      assert Replaced(e, s, ns[i..], from) == s[from..n.start] + w + rest by {
        ReplacedUnfold(e, s, ns, i, from);
      }
      AppendAssoc(p, s[from..n.start], w, rest);
      assert RunFrom(e, st, i) == RunFrom(e, st', i + 1);
    }
  }

  lemma AppendAssoc(p: Bytes, a: Bytes, w: Bytes, r: Bytes)
    ensures p + a + w + r == p + (a + w + r)
  {
  }

  /** The notes from `i` on are themselves disjoint. */
  lemma DisjointSuffix(s: Bytes, ns: seq<Note>, i: nat)
    requires Disjoint(s, ns) && i <= |ns|
    ensures Disjoint(s, ns[i..])
  {
    forall j, k | 0 <= j < k < |ns[i..]| ensures ns[i..][j].End() <= ns[i..][k].start {
      assert ns[i..][j] == ns[i + j] && ns[i..][k] == ns[i + k];
    }
  }

  /** Replaced from note `i` on is the gap before it, its replacement, and
      Replaced from note `i + 1` on. */
  lemma ReplacedUnfold(e: Rewrites, s: Bytes, ns: seq<Note>, i: nat, from: nat)
    requires Disjoint(s, ns) && i < |ns| && from <= ns[i].start
    requires forall k :: i <= k < |ns| ==> from <= ns[k].start
    requires Disjoint(s, ns[i..]) && Disjoint(s, ns[i + 1..])
    ensures Replaced(e, s, ns[i..], from)
              == s[from..ns[i].start] + Rewrite(e, s, ns[i]) + Replaced(e, s, ns[i + 1..], ns[i].End())
  {
    assert ns[i..][1..] == ns[i + 1..];
  }

  /** One iteration keeps the invariant of RunReplaces. */
  lemma StepReplaces(e: Rewrites, s: Bytes, ns: seq<Note>, i: nat, st: State, p: Bytes, from: nat)
    requires Disjoint(s, ns) && i < |ns| && |st.notes| == |ns|
    requires from <= ns[i].start
    requires st.text == p + s[from..]
    requires st.notes[i] == ns[i].(start := ns[i].start + |p| - from)
    requires forall k :: i < k < |ns| ==> st.notes[k] == ns[k].(start := ns[k].start + |p| - from)
    ensures CanStep(e, st, i)
    ensures var p' := p + s[from..ns[i].start] + Rewrite(e, s, ns[i]);
            && Step(e, st, i).text == p' + s[ns[i].End()..]
            && forall k :: i < k < |ns| ==> Step(e, st, i).notes[k] == ns[k].(start := ns[k].start + |p'| - ns[i].End())
  {
    var n := ns[i];
    var c := st.notes[i];
    assert InText(n, s);
    assert c.start == n.start + |p| - from && c.End() == n.End() + |p| - from;
    assert s[from..] == s[from..n.start] + s[n.start..n.End()] + s[n.End()..];
    if n.kind in e {
      assert st.text[..c.start] == p + s[from..n.start];
      assert st.text[c.End()..] == s[n.End()..];
    }
  }

  /** Main theorem. For notes that lie in the text in ascending order without
      overlapping, Expand never panics, and its output is the original text
      with each note's span replaced independently: by the note's rewrite
      when its kind has one, left as it was otherwise. */
  lemma ExpandReplacesIndependently(e: Rewrites, s: Bytes, ns: seq<Note>)
    requires Disjoint(s, ns)
    ensures Runs(e, State(s, ns), 0)
    ensures Expanded(e, s, ns).text == Replaced(e, s, ns, 0)
  {
    assert ns[0..] == ns;
    RunReplaces(e, s, ns, 0, State(s, ns), [], 0);
  }

  // ---------------------------------------------------------------------
  // Notes without a rewrite

  /** The notes whose kind has a rewrite, in their order. */
  function Mapped(e: Rewrites, ns: seq<Note>): (r: seq<Note>)
    ensures |r| <= |ns|
    ensures forall k :: 0 <= k < |r| ==> r[k].kind in e
  {
    if ns == [] then []
    else (if ns[0].kind in e then [ns[0]] else []) + Mapped(e, ns[1..])
  }

  /** Moving every start does not change which notes have a rewrite. */
  lemma {:induction false} MappedShift(e: Rewrites, ns: seq<Note>, d: int)
    ensures Mapped(e, Shift(ns, d)) == Shift(Mapped(e, ns), d)
  {
    if ns != [] {
      var t := Shift(ns, d);
      ShiftCons(ns[0], ns[1..], d);
      assert ns == [ns[0]] + ns[1..];
      assert t[1..] == Shift(ns[1..], d);
      MappedShift(e, ns[1..], d);
      if ns[0].kind in e {
        assert Mapped(e, t) == [t[0]] + Mapped(e, t[1..]);
        ShiftCons(ns[0], Mapped(e, ns[1..]), d);
      } else {
        assert Mapped(e, t) == Mapped(e, t[1..]);
      }
    }
  }

  lemma ShiftCons(n: Note, ns: seq<Note>, d: int)
    ensures Shift([n] + ns, d) == [n.(start := n.start + d)] + Shift(ns, d)
  {
    var a := Shift([n] + ns, d);
    var b := [n.(start := n.start + d)] + Shift(ns, d);
    assert |a| == |b|;
    forall k | 0 <= k < |a| ensures a[k] == b[k] {
      if k > 0 {
        assert ([n] + ns)[k] == ns[k - 1];
      }
    }
  }

  /** Only the text and the notes from the current one on matter to the
      rest of the run. */
  lemma {:induction false} RunFromTail(e: Rewrites, st: State, i: nat, st2: State, j: nat)
    requires i <= |st.notes| && j <= |st2.notes|
    requires st.text == st2.text && st.notes[i..] == st2.notes[j..]
    ensures Runs(e, st, i) == Runs(e, st2, j)
    ensures Runs(e, st, i) ==> RunFrom(e, st, i).text == RunFrom(e, st2, j).text
    decreases |st.notes| - i
  {
    if i < |st.notes| {
      TailStep(e, st, i, st2, j);
      if CanStep(e, st, i) {
        RunFromTail(e, Step(e, st, i), i + 1, Step(e, st2, j), j + 1);
      }
    }
  }

  /** One iteration on states that agree from the current note on: both can
      run it or neither can, and afterwards they still agree. */
  lemma TailStep(e: Rewrites, st: State, i: nat, st2: State, j: nat)
    requires i < |st.notes| && j < |st2.notes|
    requires st.text == st2.text && st.notes[i..] == st2.notes[j..]
    ensures st.notes[i] == st2.notes[j]
    ensures CanStep(e, st, i) == CanStep(e, st2, j)
    ensures CanStep(e, st, i) ==>
              Step(e, st, i).text == Step(e, st2, j).text
              && Step(e, st, i).notes[i + 1..] == Step(e, st2, j).notes[j + 1..]
  {
    assert st.notes[i] == st.notes[i..][0] == st2.notes[j..][0] == st2.notes[j];
    if CanStep(e, st, i) {
      var a := Step(e, st, i);
      var b := Step(e, st2, j);
      assert st.notes[i + 1..] == st.notes[i..][1..];
      assert st2.notes[j + 1..] == st2.notes[j..][1..];
      if st.notes[i].kind in e {
        assert a.notes[i + 1..] == Shift(st.notes[i + 1..], Delta(e, st.notes[i]));
        assert b.notes[j + 1..] == Shift(st2.notes[j + 1..], Delta(e, st.notes[i]));
      }
    }
  }

  /** Expanding notes that start with `n`: a note without a rewrite is
      skipped, a note with one is rewritten and the rest moved. */
  lemma ExpandedHead(e: Rewrites, s: Bytes, n: Note, rest: seq<Note>)
    ensures n.kind !in e ==>
              && Runs(e, State(s, [n] + rest), 0) == Runs(e, State(s, rest), 0)
              && (Runs(e, State(s, rest), 0) ==> Expanded(e, s, [n] + rest).text == Expanded(e, s, rest).text)
    ensures n.kind in e && InText(n, s) ==>
              var s' := s[..n.start] + e[n.kind](n.val) + s[n.End()..];
              var rest' := Shift(rest, Delta(e, n));
              && Runs(e, State(s, [n] + rest), 0) == Runs(e, State(s', rest'), 0)
              && (Runs(e, State(s', rest'), 0) ==> Expanded(e, s, [n] + rest).text == Expanded(e, s', rest').text)
    ensures n.kind in e && !InText(n, s) ==> !Runs(e, State(s, [n] + rest), 0)
  {
    var st := State(s, [n] + rest);
    assert st.notes[1..] == rest;
    if n.kind !in e || InText(n, s) {
      var a := Step(e, st, 0);
      RunFromTail(e, a, 1, State(a.text, a.notes[1..]), 0);
    }
  }

  /** Notes whose kind has no rewrite change nothing: expanding all the notes
      and expanding only those with a rewrite panic alike and give the same
      text, wherever the other notes lie. */
  lemma {:induction false} ExpandSkipsUnmapped(e: Rewrites, s: Bytes, ns: seq<Note>)
    ensures Runs(e, State(s, ns), 0) == Runs(e, State(s, Mapped(e, ns)), 0)
    ensures Runs(e, State(s, ns), 0) ==> Expanded(e, s, ns).text == Expanded(e, s, Mapped(e, ns)).text
    decreases |ns|
  {
    if ns != [] {
      var n, rest := ns[0], ns[1..];
      assert ns == [n] + rest;
      ExpandedHead(e, s, n, rest);
      if n.kind !in e {
        assert Mapped(e, ns) == Mapped(e, rest);
        ExpandSkipsUnmapped(e, s, rest);
      } else {
        assert Mapped(e, ns) == [n] + Mapped(e, rest);
        ExpandedHead(e, s, n, Mapped(e, rest));
        if InText(n, s) {
          var s' := s[..n.start] + e[n.kind](n.val) + s[n.End()..];
          ExpandSkipsUnmapped(e, s', Shift(rest, Delta(e, n)));
          MappedShift(e, rest, Delta(e, n));
        }
      }
    }
  }

  /** The main theorem for notes in any order: when the notes that have a
      rewrite lie in the text in ascending order without overlapping, Expand
      never panics and replaces each of their spans independently, however
      the other notes are placed. */
  lemma ExpandReplacesMapped(e: Rewrites, s: Bytes, ns: seq<Note>)
    requires Disjoint(s, Mapped(e, ns))
    ensures Runs(e, State(s, ns), 0)
    ensures Expanded(e, s, ns).text == Replaced(e, s, Mapped(e, ns), 0)
  {
    ExpandReplacesIndependently(e, s, Mapped(e, ns));
    ExpandSkipsUnmapped(e, s, ns);
  }

  /** The shape of expander_test.go: a mention and a URL that have rewrites,
      in ascending order, followed by an earlier hashtag that has none. Both
      rewritten spans are replaced, and the rest of the text stays. */
  lemma ExpandTwoOfThree(e: Rewrites, s: Bytes, m: Note, u: Note, h: Note)
    requires m.kind in e && u.kind in e && h.kind !in e
    requires InText(m, s) && InText(u, s) && m.End() <= u.start
    ensures Runs(e, State(s, [m, u, h]), 0)
    ensures Expanded(e, s, [m, u, h]).text
              == s[..m.start] + e[m.kind](m.val) + s[m.End()..u.start] + e[u.kind](u.val) + s[u.End()..]
  {
    MappedTwoOfThree(e, m, u, h);
    ExpandReplacesMapped(e, s, [m, u, h]);
    ReplacedTwo(e, s, m, u);
  }

  lemma MappedTwoOfThree(e: Rewrites, m: Note, u: Note, h: Note)
    requires m.kind in e && u.kind in e && h.kind !in e
    ensures Mapped(e, [m, u, h]) == [m, u]
  {
    assert Mapped(e, [h]) == [] by {
      assert [h][1..] == [];
    }
    assert Mapped(e, [u, h]) == [u] by {
      assert [u, h][1..] == [h];
    }
    assert [m, u, h][1..] == [u, h];
  }

  lemma ReplacedTwo(e: Rewrites, s: Bytes, m: Note, u: Note)
    requires m.kind in e && u.kind in e
    requires InText(m, s) && InText(u, s) && m.End() <= u.start
    ensures Disjoint(s, [m, u])
    ensures Replaced(e, s, [m, u], 0)
              == s[..m.start] + e[m.kind](m.val) + s[m.End()..u.start] + e[u.kind](u.val) + s[u.End()..]
  {
    var tail := s[m.End()..u.start] + e[u.kind](u.val) + s[u.End()..];
    assert Replaced(e, s, [u], m.End()) == tail by {
      assert [u][1..] == [];
    }
    assert [m, u][1..] == [u];
    assert s[0..m.start] == s[..m.start];
  }

  /** Each note holds the bytes of the text at its span. */
  predicate Matches(s: Bytes, ns: seq<Note>)
  {
    forall k :: 0 <= k < |ns| ==> IsAt(s, ns[k].val, ns[k].start)
  }

  /** Every rewrite returns its input unchanged for the notes' values. */
  predicate IdentityOn(e: Rewrites, ns: seq<Note>)
  {
    forall k :: 0 <= k < |ns| && ns[k].kind in e ==> e[ns[k].kind](ns[k].val) == ns[k].val
  }

  /** With rewrites that return what they are given, and notes that hold the
      text at their spans, Expand returns the original text and leaves every
      note where it was, whatever the order and number of the notes. */
  lemma {:induction false} ExpandIdentity(e: Rewrites, s: Bytes, ns: seq<Note>, i: nat)
    requires i <= |ns| && Matches(s, ns) && IdentityOn(e, ns)
    ensures Runs(e, State(s, ns), i)
    ensures RunFrom(e, State(s, ns), i) == State(s, ns)
    decreases |ns| - i
  {
    if i < |ns| {
      var n := ns[i];
      assert IsAt(s, n.val, n.start);
      if n.kind in e {
        assert s == s[..n.start] + n.val + s[n.End()..];
        assert Shift(ns[i + 1..], 0) == ns[i + 1..];
        assert ns[..i + 1] + ns[i + 1..] == ns;
      }
      assert Step(e, State(s, ns), i) == State(s, ns);
      ExpandIdentity(e, s, ns, i + 1);
    }
  }
}
