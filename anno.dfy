/** The annotation engine of anno.go: notes, finders built from a per-field
    classifier, and a finder that runs several finders in order. */
module Anno {

  import opened Wrappers
  import opened Bytes

  /** Something interesting within text: its bytes, the offset of its first
      byte and its kind. The end offset is derived from the other two. */
  datatype Note = Note(val: Bytes, start: int, kind: string) {

    /** The offset one past the note's last byte. */
    function End(): int
    {
      start + |val|
    }

    /** The note's text, byte for byte. */
    function String(): Bytes
    {
      val
    }
  }

  /** The errors a finder reports: ErrNoMatch from a field finder whose
      classifier chose bytes that the source does not hold, or the error of
      any other finder, carried by its message. */
  datatype Error = ErrNoMatch(value: Bytes) | Failed(reason: Bytes) {

    /** Error() */
    function Message(): (m: Bytes)
      ensures ErrNoMatch? ==> |m| == |value| + 15
      ensures ErrNoMatch? ==> m[..14] == NoMatchPrefix && m[14..|m| - 1] == value
      ensures ErrNoMatch? ==> m[|m| - 1] == 39
    {
      match this
      case ErrNoMatch(b) => NoMatchPrefix + b + [39]
      case Failed(r) => r
    }
  }

  /** The message gives back the value that was not found: two ErrNoMatch
      errors with the same message are for the same value. */
  lemma MessageNamesValue(a: Bytes, b: Bytes)
    requires ErrNoMatch(a).Message() == ErrNoMatch(b).Message()
    ensures a == b
  {
    var m := ErrNoMatch(a).Message();
    assert a == m[14..|m| - 1];
  }

  /** The text `no match for '` */
  const NoMatchPrefix: Bytes := [110, 111, 32, 109, 97, 116, 99, 104, 32, 102, 111, 114, 32, 39]

  /** The two results of Go's Find: the notes found and an error, if any. */
  datatype Outcome = Outcome(notes: seq<Note>, err: Option<Error>)

  /** The Finder interface, and FinderFunc, as a function from source bytes. */
  type Finder = Bytes -> Outcome

  /** A per-field classifier: whether the field matches, and which bytes to record. */
  type Classifier = Bytes -> (bool, Bytes)

  /** FinderFunc.Find calls the function. */
  function Find(finder: Finder, s: Bytes): Outcome
  {
    finder(s)
  }

  /** FindString: a Go string and its bytes are the same byte sequence. */
  function FindString(finder: Finder, s: Bytes): Outcome
  {
    Find(finder, s)
  }

  // ---------------------------------------------------------------------
  // FieldFunc

  /** `ns` in front of the notes of `o`, unless `o` failed: a failure
      discards the notes collected before it. */
  function Prepend(ns: seq<Note>, o: Outcome): Outcome
  {
    if o.err.Some? then o else Outcome(ns + o.notes, None)
  }

  /** The loop of FieldFunc over the remaining `fields`. The offset of an
      accepted value is the first place it occurs in the whole of `src`. */
  function ScanFields(kind: string, fn: Classifier, src: Bytes, fields: seq<Bytes>): Outcome
  {
    if fields == [] then Outcome([], None)
    else
      var (ok, chosen) := fn(fields[0]);
      if !ok then ScanFields(kind, fn, src, fields[1..])
      else
        var s := Index(src, chosen);
        if s == -1 then Outcome([], Some(ErrNoMatch(chosen)))
        else Prepend([Note(chosen, s, kind)], ScanFields(kind, fn, src, fields[1..]))
  }

  /** FieldFunc: a finder that classifies each whitespace-separated field. */
  function FieldFunc(kind: string, fn: Classifier): Finder
  {
    src => ScanFields(kind, fn, src, Fields(src))
  }

  /** The finder FieldFunc returns, run on `src`, as the loop of anno.go runs it. */
  method FieldFind(kind: string, fn: Classifier, src: Bytes) returns (notes: seq<Note>, err: Option<Error>)
    ensures Outcome(notes, err) == FieldFunc(kind, fn)(src)
  {
    var fields := Fields(src);
    notes := [];
    var i := 0;
    while i < |fields|
      invariant 0 <= i <= |fields|
      invariant Prepend(notes, ScanFields(kind, fn, src, fields[i..])) == ScanFields(kind, fn, src, fields)
    {
      assert fields[i..][1..] == fields[i + 1..];
      var (ok, chosen) := fn(fields[i]);
      if ok {
        var s := Index(src, chosen);
        if s == -1 {
          return [], Some(ErrNoMatch(chosen));
        }
        ghost var rest := ScanFields(kind, fn, src, fields[i + 1..]);
        assert rest.err.None? ==> notes + ([Note(chosen, s, kind)] + rest.notes) == notes + [Note(chosen, s, kind)] + rest.notes;
        notes := notes + [Note(chosen, s, kind)];
      }
      i := i + 1;
    }
    assert fields[i..] == [];
    err := None;
  }

  /** The values the classifier accepts, one per accepted field, in field order. */
  function Accepted(fn: Classifier, fields: seq<Bytes>): (vals: seq<Bytes>)
    ensures |vals| <= |fields|
  {
    if fields == [] then []
    else (if fn(fields[0]).0 then [fn(fields[0]).1] else []) + Accepted(fn, fields[1..])
  }

  /** The position of the first value that does not occur in `src`, or -1. */
  function FirstMissing(src: Bytes, vals: seq<Bytes>): (m: int)
    ensures -1 <= m < |vals|
    ensures m == -1 <==> forall k :: 0 <= k < |vals| ==> Contains(src, vals[k])
    ensures m >= 0 ==> !Contains(src, vals[m]) && forall k :: 0 <= k < m ==> Contains(src, vals[k])
  {
    if vals == [] then -1
    else if !Contains(src, vals[0]) then 0
    else
      var m := FirstMissing(src, vals[1..]);
      assert forall k :: 0 < k < |vals| ==> vals[k] == vals[1..][k - 1];
      if m == -1 then -1 else m + 1
  }

  /** Each value as a note of `kind` at its first occurrence in `src`. */
  function Located(kind: string, src: Bytes, vals: seq<Bytes>): (ns: seq<Note>)
    ensures |ns| == |vals|
    ensures forall k :: 0 <= k < |vals| ==> ns[k] == Note(vals[k], Index(src, vals[k]), kind)
  {
    if vals == [] then []
    else [Note(vals[0], Index(src, vals[0]), kind)] + Located(kind, src, vals[1..])
  }

  /** What a field scan yields: when every accepted value occurs in `src`, one
      note per accepted field, in field order, at the value's first
      occurrence; otherwise no notes and ErrNoMatch of the first accepted
      value that does not occur. */
  lemma {:induction false} ScanOutcome(kind: string, fn: Classifier, src: Bytes, fields: seq<Bytes>)
    ensures var acc := Accepted(fn, fields);
            var m := FirstMissing(src, acc);
            ScanFields(kind, fn, src, fields)
              == if m == -1 then Outcome(Located(kind, src, acc), None)
                 else Outcome([], Some(ErrNoMatch(acc[m])))
  {
    if fields != [] {
      ScanOutcome(kind, fn, src, fields[1..]);
      var (ok, chosen) := fn(fields[0]);
      var tail := Accepted(fn, fields[1..]);
      if ok {
        var acc := Accepted(fn, fields);
        assert acc == [chosen] + tail;
        assert acc[1..] == tail;
        var m := FirstMissing(src, tail);
        if Index(src, chosen) == -1 {
          assert FirstMissing(src, acc) == 0;
        } else {
          assert FirstMissing(src, acc) == if m == -1 then -1 else m + 1;
          assert Located(kind, src, acc) == [Note(chosen, Index(src, chosen), kind)] + Located(kind, src, tail);
          if m != -1 {
            assert acc[m + 1] == tail[m];
          }
        }
      } else {
        assert Accepted(fn, fields) == tail;
      }
    }
  }

  /** Every note a successful field scan produces has the scanner's kind,
      lies inside `src`, holds exactly its value there, sits at the first
      occurrence of that value, and prints as those source bytes. */
  lemma FieldNotesSound(kind: string, fn: Classifier, src: Bytes, k: int)
    requires FieldFunc(kind, fn)(src).err.None?
    requires 0 <= k < |FieldFunc(kind, fn)(src).notes|
    ensures var n := FieldFunc(kind, fn)(src).notes[k];
            && n.kind == kind
            && 0 <= n.start && n.End() == n.start + |n.val| <= |src|
            && src[n.start..n.End()] == n.val
            && IsFirstAt(src, n.val, n.start)
            && n.String() == src[n.start..n.End()]
  {
    ScanOutcome(kind, fn, src, Fields(src));
    var acc := Accepted(fn, Fields(src));
    assert FirstMissing(src, acc) == -1;
    assert FieldFunc(kind, fn)(src).notes == Located(kind, src, acc);
    var n := FieldFunc(kind, fn)(src).notes[k];
    assert n == Note(acc[k], Index(src, acc[k]), kind);
    assert Contains(src, acc[k]);
    assert IsFirstAt(src, n.val, n.start);
  }

  /** Two notes with the same value have the same offset, even when they
      come from different fields. */
  lemma FieldNotesSameValueSameStart(kind: string, fn: Classifier, src: Bytes, j: int, k: int)
    requires 0 <= j < |FieldFunc(kind, fn)(src).notes| && 0 <= k < |FieldFunc(kind, fn)(src).notes|
    requires FieldFunc(kind, fn)(src).notes[j].val == FieldFunc(kind, fn)(src).notes[k].val
    ensures FieldFunc(kind, fn)(src).notes[j].start == FieldFunc(kind, fn)(src).notes[k].start
  {
    ScanOutcome(kind, fn, src, Fields(src));
  }

  /** A successful scan yields exactly one note per accepted field, in field
      order; fields the classifier rejects yield nothing. */
  lemma FieldNotesInFieldOrder(kind: string, fn: Classifier, src: Bytes)
    requires FieldFunc(kind, fn)(src).err.None?
    ensures var ns := FieldFunc(kind, fn)(src).notes;
            var acc := Accepted(fn, Fields(src));
            |ns| == |acc| && forall k :: 0 <= k < |ns| ==> ns[k].val == acc[k]
  {
    ScanOutcome(kind, fn, src, Fields(src));
  }

  /** The scan fails exactly when some accepted value occurs nowhere in
      `src`; it then returns no notes and ErrNoMatch of the first such value. */
  lemma FieldFuncErrNoMatch(kind: string, fn: Classifier, src: Bytes)
    ensures var o := FieldFunc(kind, fn)(src);
            var acc := Accepted(fn, Fields(src));
            && (o.err.Some? <==> exists k :: 0 <= k < |acc| && !Contains(src, acc[k]))
            && (o.err.Some? ==> o.notes == [] && o.err == Some(ErrNoMatch(acc[FirstMissing(src, acc)])))
  {
    ScanOutcome(kind, fn, src, Fields(src));
  }

  /** A classifier that, whenever it accepts a field, records bytes the field
      contains. */
  ghost predicate RecordsFromField(fn: Classifier)
  {
    forall f :: fn(f).0 ==> Contains(f, fn(f).1)
  }

  /** A field scan whose classifier records bytes from the field never
      reports ErrNoMatch. */
  lemma FieldFuncNeverFails(kind: string, fn: Classifier, src: Bytes)
    requires RecordsFromField(fn)
    ensures FieldFunc(kind, fn)(src).err.None?
  {
    var fields := Fields(src);
    forall k | 0 <= k < |fields| ensures Contains(src, fields[k]) {
      FieldsAreSlices(src, k);
    }
    AcceptedFromFields(fn, src, fields);
    ScanOutcome(kind, fn, src, fields);
  }

  /** Every value accepted from a field of `src` occurs in `src`. */
  lemma {:induction false} AcceptedFromFields(fn: Classifier, src: Bytes, fields: seq<Bytes>)
    requires RecordsFromField(fn)
    requires forall k :: 0 <= k < |fields| ==> Contains(src, fields[k])
    ensures forall k :: 0 <= k < |Accepted(fn, fields)| ==> Contains(src, Accepted(fn, fields)[k])
  {
    if fields != [] {
      AcceptedFromFields(fn, src, fields[1..]);
      var f := fields[0];
      if fn(f).0 {
        var i := Index(f, fn(f).1);
        var j := Index(src, f);
        IsAtShift(src, f, fn(f).1, i, j);
      }
    }
  }

  // ---------------------------------------------------------------------
  // Many

  /** `ns` in front of the notes of `o`, keeping `o`'s error. */
  function Join(ns: seq<Note>, o: Outcome): Outcome
  {
    Outcome(ns + o.notes, o.err)
  }

  /** The loop of Many: the finders in order, stopping at the first error
      with the notes of the finders before it. */
  function RunAll(finders: seq<Finder>, s: Bytes): Outcome
  {
    if finders == [] then Outcome([], None)
    else
      var o := finders[0](s);
      if o.err.Some? then Outcome([], o.err)
      else Join(o.notes, RunAll(finders[1..], s))
  }

  /** Many: one finder that runs all of `finders` in order. */
  function Many(finders: seq<Finder>): Finder
  {
    s => RunAll(finders, s)
  }

  /** FindMany(src, fs...), taken to be Many(fs...).Find(src). */
  function FindMany(src: Bytes, finders: seq<Finder>): Outcome
  {
    Find(Many(finders), src)
  }

  /** The finder Many returns, run on `s`, as the loop of anno.go runs it. */
  method ManyFind(finders: seq<Finder>, s: Bytes) returns (notes: seq<Note>, err: Option<Error>)
    ensures Outcome(notes, err) == Many(finders)(s)
  {
    notes := [];
    var i := 0;
    while i < |finders|
      invariant 0 <= i <= |finders|
      invariant Join(notes, RunAll(finders[i..], s)) == RunAll(finders, s)
    {
      assert finders[i..][1..] == finders[i + 1..];
      var o := finders[i](s);
      if o.err.Some? {
        return notes, o.err;
      }
      assert notes + (o.notes + RunAll(finders[i + 1..], s).notes) == notes + o.notes + RunAll(finders[i + 1..], s).notes;
      notes := notes + o.notes;
      i := i + 1;
    }
    assert finders[i..] == [];
    err := None;
  }

  /** The concatenation of a sequence of note sequences. */
  function Flatten(nss: seq<seq<Note>>): seq<Note>
  {
    if nss == [] then [] else nss[0] + Flatten(nss[1..])
  }

  /** The notes of each finder on `s`, in argument order. */
  function NotesOf(finders: seq<Finder>, s: Bytes): (nss: seq<seq<Note>>)
    ensures |nss| == |finders|
    ensures forall i :: 0 <= i < |finders| ==> nss[i] == finders[i](s).notes
  {
    if finders == [] then [] else [finders[0](s).notes] + NotesOf(finders[1..], s)
  }

  /** When no finder fails, Many yields the concatenation of each finder's
      notes in argument order, and no error. */
  lemma {:induction false} ManyConcatenates(finders: seq<Finder>, s: Bytes)
    requires forall i :: 0 <= i < |finders| ==> finders[i](s).err.None?
    ensures Many(finders)(s) == Outcome(Flatten(NotesOf(finders, s)), None)
  {
    if finders != [] {
      ManyConcatenates(finders[1..], s);
      assert NotesOf(finders, s)[1..] == NotesOf(finders[1..], s);
    }
  }

  /** When finder `k` is the first to fail, Many yields the notes of the
      finders before it together with its error, and the finders after it
      have no effect on the result. */
  lemma {:induction false} ManyStopsAtFirstError(finders: seq<Finder>, s: Bytes, k: nat)
    requires k < |finders| && finders[k](s).err.Some?
    requires forall i :: 0 <= i < k ==> finders[i](s).err.None?
    ensures Many(finders)(s) == Outcome(Flatten(NotesOf(finders[..k], s)), finders[k](s).err)
    ensures Many(finders)(s) == Many(finders[..k + 1])(s)
  {
    if k > 0 {
      ManyStopsAtFirstError(finders[1..], s, k - 1);
      assert finders[1..][..k - 1] == finders[..k][1..];
      assert finders[1..][..k] == finders[..k + 1][1..];
      assert NotesOf(finders[..k], s)[1..] == NotesOf(finders[..k][1..], s);
    }
  }

  // ---------------------------------------------------------------------
  // Sorting notes

  /** Notes in ascending order of their start offsets. */
  predicate SortedByStart(ns: seq<Note>)
  {
    forall i, j :: 0 <= i < j < |ns| ==> ns[i].start <= ns[j].start
  }

  /** `n` inserted into sorted `ns` before the first note that does not
      start earlier than it. */
  function Insert(n: Note, ns: seq<Note>): (r: seq<Note>)
    requires SortedByStart(ns)
    ensures SortedByStart(r)
    ensures multiset(r) == multiset(ns) + multiset{n}
  {
    if ns == [] || n.start <= ns[0].start then [n] + ns
    else
      var tail := Insert(n, ns[1..]);
      assert ns == [ns[0]] + ns[1..];
      InsertAbove(n, ns, tail);
      [ns[0]] + tail
  }

  /** The notes after the head of sorted `ns`, with `n` among them, start no
      earlier than that head. */
  lemma InsertAbove(n: Note, ns: seq<Note>, tail: seq<Note>)
    requires SortedByStart(ns) && ns != [] && ns[0].start < n.start
    requires multiset(tail) == multiset(ns[1..]) + multiset{n}
    ensures forall i :: 0 <= i < |tail| ==> ns[0].start <= tail[i].start
  {
    forall i | 0 <= i < |tail| ensures ns[0].start <= tail[i].start {
      assert tail[i] in multiset(tail);
      if tail[i] != n {
        assert tail[i] in ns[1..];
        var j :| 0 <= j < |ns[1..]| && ns[1..][j] == tail[i];
        assert ns[j + 1] == tail[i];
      }
    }
  }

  /** The sort of a note collection by start offset: an insertion sort. */
  function SortByStart(ns: seq<Note>): (r: seq<Note>)
    ensures SortedByStart(r)
    ensures multiset(r) == multiset(ns)
  {
    if ns == [] then []
    else
      assert ns == [ns[0]] + ns[1..];
      Insert(ns[0], SortByStart(ns[1..]))
  }

  /** Sorting an already sorted collection changes nothing. */
  lemma {:induction false} SortSortedIsIdentity(ns: seq<Note>)
    requires SortedByStart(ns)
    ensures SortByStart(ns) == ns
  {
    if ns != [] {
      SortSortedIsIdentity(ns[1..]);
    }
  }
}
