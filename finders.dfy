/** The built-in finders of finders.go: emails, URLs, mentions and hashtags,
    each a field finder over a classifier that trims sentence punctuation. */
module Finders {

  import opened Wrappers
  import opened Bytes
  import opened Anno

  /** Common punctuation and quotation characters: . ? ! ' " , ; */
  const Punctuation: Bytes := [46, 63, 33, 39, 34, 44, 59]

  predicate IsPunct(b: byte)
  {
    b in Punctuation
  }

  /** TrimPunctuation: the field without its leading and trailing
      punctuation. The result is the contiguous slice of `s` that starts
      after the leading punctuation; everything cut off is punctuation; and a
      non-empty result neither starts nor ends with punctuation. */
  function TrimPunctuation(s: Bytes): (r: Bytes)
    ensures |r| <= |s|
    ensures IsAt(s, r, LeadIn(s, Punctuation))
    ensures forall i :: 0 <= i < LeadIn(s, Punctuation) ==> IsPunct(s[i])
    ensures forall i :: LeadIn(s, Punctuation) + |r| <= i < |s| ==> IsPunct(s[i])
    ensures r != [] ==> !IsPunct(r[0]) && !IsPunct(r[|r| - 1])
  {
    Trim(s, Punctuation)
  }

  /** Trimming twice is trimming once. */
  lemma TrimPunctuationIdempotent(s: Bytes)
    ensures TrimPunctuation(TrimPunctuation(s)) == TrimPunctuation(s)
  {
    var r := TrimPunctuation(s);
    if r != [] {
      assert LeadIn(r, Punctuation) == 0;
      assert TrailIn(r, Punctuation) == 0;
    }
  }

  /** When the trimmed field is empty, every byte of the field is punctuation. */
  lemma TrimPunctuationEmpty(s: Bytes)
    requires TrimPunctuation(s) == []
    ensures forall i :: 0 <= i < |s| ==> IsPunct(s[i])
  {
  }

  /** The known domain suffixes. */
  const Tlds: seq<Bytes> := [
    [46, 99, 111, 109],       // .com
    [46, 110, 101, 116],      // .net
    [46, 111, 114, 103],      // .org
    [46, 101, 100, 117],      // .edu
    [46, 99, 111],            // .co
    [46, 105, 111],           // .io
    [46, 117, 107],           // .uk
    [46, 117, 115],           // .us
    [46, 99, 97],             // .ca
    [46, 100, 101],           // .de
    [46, 106, 112],           // .jp
    [46, 102, 114],           // .fr
    [46, 97, 117],            // .au
    [46, 114, 117],           // .ru
    [46, 99, 104],            // .ch
    [46, 105, 116],           // .it
    [46, 110, 108],           // .nl
    [46, 115, 101],           // .se
    [46, 110, 111],           // .no
    [46, 101, 115],           // .es
    [46, 109, 105, 108]       // .mil
  ]

  /** The `for _, tld := range tlds` search: does `s` end with one of `suffixes`? */
  function EndsWithAny(s: Bytes, suffixes: seq<Bytes>): (r: bool)
    ensures r <==> exists t :: t in suffixes && HasSuffix(s, t)
  {
    if suffixes == [] then false
    else HasSuffix(s, suffixes[0]) || EndsWithAny(s, suffixes[1..])
  }

  /** Every known suffix is at least three bytes long. */
  lemma TldsAtLeastThreeBytes()
    ensures forall k :: 0 <= k < |Tlds| ==> |Tlds[k]| >= 3
  {
  }

  const At: Bytes := [64]        // @
  const Hash: Bytes := [35]      // #
  const Http: Bytes := [104, 116, 116, 112]   // http
  const Www: Bytes := [119, 119, 119]          // www

  /** The classifier of Emails. It tests the untrimmed field for an `@` and a
      known suffix, and records the trimmed field. */
  function EmailField(s: Bytes): (r: (bool, Bytes))
    ensures r.0 <==> Contains(s, At) && exists t :: t in Tlds && HasSuffix(s, t)
    ensures r.0 ==> r.1 == TrimPunctuation(s)
  {
    var trimmed := TrimPunctuation(s);
    if !Contains(s, At) then (false, s)
    else if EndsWithAny(s, Tlds) then (true, trimmed)
    else (false, s)
  }

  /** The classifier of URLs. Any field with an `@` is left to Emails;
      otherwise the trimmed field must start with http or www, or end with a
      known suffix, and it is what is recorded. */
  function URLField(s: Bytes): (r: (bool, Bytes))
    ensures Contains(s, At) ==> !r.0
    ensures !Contains(s, At) ==>
              (r.0 <==> HasPrefix(TrimPunctuation(s), Http) || HasPrefix(TrimPunctuation(s), Www)
                        || exists t :: t in Tlds && HasSuffix(TrimPunctuation(s), t))
    ensures r.0 ==> r.1 == TrimPunctuation(s)
  {
    var trimmed := TrimPunctuation(s);
    if Contains(s, At) then (false, s)
    else if HasPrefix(trimmed, Http) || HasPrefix(trimmed, Www) then (true, trimmed)
    else if EndsWithAny(trimmed, Tlds) then (true, trimmed)
    else (false, s)
  }

  /** The classifier of Mentions: the trimmed field starts with `@`, and the
      value is the trimmed field (trimming it again changes nothing). */
  function MentionField(s: Bytes): (r: (bool, Bytes))
    ensures r.0 <==> HasPrefix(TrimPunctuation(s), At)
    ensures r.1 == TrimPunctuation(s)
  {
    var trimmedS := TrimPunctuation(s);
    TrimPunctuationIdempotent(s);
    (HasPrefix(trimmedS, At), TrimPunctuation(trimmedS))
  }

  /** The classifier of Hashtags: the trimmed field starts with `#`, and the
      value is the trimmed field. */
  function HashtagField(s: Bytes): (r: (bool, Bytes))
    ensures r.0 <==> HasPrefix(TrimPunctuation(s), Hash)
    ensures r.1 == TrimPunctuation(s)
  {
    var trimmedS := TrimPunctuation(s);
    TrimPunctuationIdempotent(s);
    (HasPrefix(trimmedS, Hash), TrimPunctuation(trimmedS))
  }

  /** Emails finds email addresses. */
  const Emails: Finder := FieldFunc("email", EmailField)

  /** URLs finds web addresses. */
  const URLs: Finder := FieldFunc("url", URLField)

  /** Mentions finds @twitter style mentions. */
  const Mentions: Finder := FieldFunc("mention", MentionField)

  /** Hashtags finds #hashtags. */
  const Hashtags: Finder := FieldFunc("hashtag", HashtagField)

  /** No field is both an email address and a URL. */
  lemma EmailsAndURLsDisjoint(s: Bytes)
    ensures !(EmailField(s).0 && URLField(s).0)
  {
  }

  /** The trimmed field is a slice of the field; a non-empty one is found in it. */
  lemma TrimmedInField(s: Bytes)
    ensures Contains(s, TrimPunctuation(s))
  {
  }

  /** A field that holds a byte outside the punctuation set keeps a non-empty
      trimmed value. */
  lemma TrimKeepsNonPunct(s: Bytes, k: int)
    requires 0 <= k < |s| && !IsPunct(s[k])
    ensures TrimPunctuation(s) != []
  {
    if TrimPunctuation(s) == [] {
      TrimPunctuationEmpty(s);
    }
  }

  /** Whenever Emails' classifier accepts a field, it records a non-empty
      contiguous slice of that field. */
  lemma EmailValueFromField(s: Bytes)
    ensures EmailField(s).0 ==> EmailField(s).1 != [] && Contains(s, EmailField(s).1)
  {
    var r := EmailField(s);
    if r.0 {
      assert r.1 == TrimPunctuation(s) && Contains(s, At);
      TrimmedInField(s);
      assert TrimPunctuation(s) != [] by {
        ContainsByte(s, 64);
        var k :| 0 <= k < |s| && s[k] == 64;
        TrimKeepsNonPunct(s, k);
      }
    }
  }

  /** Whenever URLs' classifier accepts a field, it records a non-empty
      contiguous slice of that field. */
  lemma URLValueFromField(s: Bytes)
    ensures URLField(s).0 ==> URLField(s).1 != [] && Contains(s, URLField(s).1)
  {
    TrimmedInField(s);
    var t := TrimPunctuation(s);
    if URLField(s).0 && !HasPrefix(t, Http) && !HasPrefix(t, Www) {
      var tld :| tld in Tlds && HasSuffix(t, tld);
      TldsAtLeastThreeBytes();
      var k :| 0 <= k < |Tlds| && Tlds[k] == tld;
    }
  }

  /** Whenever the Mentions or Hashtags classifier accepts a field, it
      records a non-empty contiguous slice of that field. */
  lemma TagValueFromField(s: Bytes)
    ensures MentionField(s).0 ==> MentionField(s).1 != [] && Contains(s, MentionField(s).1)
    ensures HashtagField(s).0 ==> HashtagField(s).1 != [] && Contains(s, HashtagField(s).1)
  {
    TrimmedInField(s);
  }

  /** The built-in classifiers only record bytes of the field. */
  lemma BuiltinsRecordFromField()
    ensures RecordsFromField(EmailField) && RecordsFromField(URLField)
    ensures RecordsFromField(MentionField) && RecordsFromField(HashtagField)
  {
    forall f ensures EmailField(f).0 ==> Contains(f, EmailField(f).1) {
      EmailValueFromField(f);
    }
    forall f ensures URLField(f).0 ==> Contains(f, URLField(f).1) {
      URLValueFromField(f);
    }
    forall f ensures MentionField(f).0 ==> Contains(f, MentionField(f).1) {
      TagValueFromField(f);
    }
    forall f ensures HashtagField(f).0 ==> Contains(f, HashtagField(f).1) {
      TagValueFromField(f);
    }
  }

  /** None of the four built-in finders ever returns ErrNoMatch. */
  lemma BuiltinsNeverFail(src: Bytes)
    ensures Emails(src).err.None? && URLs(src).err.None?
    ensures Mentions(src).err.None? && Hashtags(src).err.None?
  {
    BuiltinsRecordFromField();
    FieldFuncNeverFails("email", EmailField, src);
    FieldFuncNeverFails("url", URLField, src);
    FieldFuncNeverFails("mention", MentionField, src);
    FieldFuncNeverFails("hashtag", HashtagField, src);
  }

  /** Running the built-in finders together never fails either, and yields
      the concatenation of their notes, in argument order. */
  lemma BuiltinsTogether(src: Bytes, finders: seq<Finder>)
    requires forall i :: 0 <= i < |finders| ==> finders[i] in [Emails, URLs, Mentions, Hashtags]
    ensures FindMany(src, finders) == Outcome(Flatten(NotesOf(finders, src)), None)
  {
    BuiltinsNeverFail(src);
    ManyConcatenates(finders, src);
  }
}
