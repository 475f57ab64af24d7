/** The emoji finder of emoji/emoji.go: raw `:name:` fields, and their
    expansion through a code table. */
module Emoji {

  import opened Bytes
  import opened Anno
  import opened Expander

  const Colon: Bytes := [58]   // :

  /** The classifier of Find: a field that begins and ends with `:`,
      recorded whole and untrimmed. A lone `:` is both. */
  function EmojiField(s: Bytes): (r: (bool, Bytes))
    ensures r.0 <==> |s| >= 1 && s[0] == 58 && s[|s| - 1] == 58
    ensures r.1 == s
  {
    (HasPrefix(s, Colon) && HasSuffix(s, Colon), s)
  }

  /** Find finds raw :emoji: fields. */
  const Find: Finder := FieldFunc("emoji", EmojiField)

  /** Expand looks the name up in the code table; Go's map lookup yields the
      empty string for a name the table does not hold. The table itself is
      not part of this model and is a parameter. */
  function Expand(codeMap: map<Bytes, Bytes>, b: Bytes): (r: Bytes)
    ensures b in codeMap ==> r == codeMap[b]
    ensures b !in codeMap ==> r == []
  {
    if b in codeMap then codeMap[b] else []
  }

  /** The expander that maps emoji notes to their table entries. */
  function EmojiRewrites(codeMap: map<Bytes, Bytes>): Rewrites
  {
    map["emoji" := (b: Bytes) => Expand(codeMap, b)]
  }

  /** Expanding disjoint emoji notes replaces the span of each one, in the
      original text, with its entry in the code table, or with nothing when
      the table lacks the name. */
  lemma ExpandEmoji(codeMap: map<Bytes, Bytes>, s: Bytes, ns: seq<Note>)
    requires Disjoint(s, ns)
    requires forall k :: 0 <= k < |ns| ==> ns[k].kind == "emoji"
    ensures Runs(EmojiRewrites(codeMap), State(s, ns), 0)
    ensures Expanded(EmojiRewrites(codeMap), s, ns).text == Replaced(EmojiRewrites(codeMap), s, ns, 0)
    ensures forall k :: 0 <= k < |ns| ==>
              Rewrite(EmojiRewrites(codeMap), s, ns[k])
                == if ns[k].val in codeMap then codeMap[ns[k].val] else []
  {
    ExpandReplacesIndependently(EmojiRewrites(codeMap), s, ns);
  }

  /** Two emoji notes in a sentence, as in the expansion of the emoji test:
      each `:name:` becomes its table entry and the text around them stays. */
  lemma ExpandTwoEmoji(codeMap: map<Bytes, Bytes>, s: Bytes, a: Note, b: Note)
    requires a.kind == "emoji" && b.kind == "emoji"
    requires InText(a, s) && InText(b, s) && a.End() <= b.start
    ensures Runs(EmojiRewrites(codeMap), State(s, [a, b]), 0)
    ensures Expanded(EmojiRewrites(codeMap), s, [a, b]).text
              == s[..a.start] + Expand(codeMap, a.val) + s[a.End()..b.start] + Expand(codeMap, b.val) + s[b.End()..]
  {
    var e := EmojiRewrites(codeMap);
    ReplacedTwo(e, s, a, b);
    ExpandReplacesIndependently(e, s, [a, b]);
  }

  /** Every note Find produces is an emoji note holding a whole field that
      begins and ends with `:`, and Find never reports ErrNoMatch. */
  lemma FindSound(src: Bytes, k: int)
    ensures Find(src).err.None?
    ensures 0 <= k < |Find(src).notes| ==>
              var n := Find(src).notes[k];
              n.kind == "emoji" && |n.val| >= 1 && n.val[0] == 58 && n.val[|n.val| - 1] == 58
              && IsFirstAt(src, n.val, n.start)
  {
    forall f ensures EmojiField(f).0 ==> Contains(f, EmojiField(f).1) {
      assert IsAt(f, f, 0);
    }
    FieldFuncNeverFails("emoji", EmojiField, src);
    if 0 <= k < |Find(src).notes| {
      FieldNotesSound("emoji", EmojiField, src, k);
      FieldNotesInFieldOrder("emoji", EmojiField, src);
      var v := Accepted(EmojiField, Fields(src))[k];
      assert Find(src).notes[k].val == v;
      assert |v| >= 1 && v[0] == 58 && v[|v| - 1] == 58 by {
        AcceptedEmoji(Fields(src));
      }
    }
  }

  /** The values Find accepts are fields that begin and end with `:`. */
  lemma {:induction false} AcceptedEmoji(fields: seq<Bytes>)
    ensures forall k :: 0 <= k < |Accepted(EmojiField, fields)| ==>
              var v := Accepted(EmojiField, fields)[k];
              |v| >= 1 && v[0] == 58 && v[|v| - 1] == 58
  {
    if fields != [] {
      AcceptedEmoji(fields[1..]);
    }
  }
}
