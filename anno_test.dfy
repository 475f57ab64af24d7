/** The scenario of TestFieldFinder in anno_test.go: its sentence, its
    classifier, the notes FieldFunc finds and the order sorting gives them. */
module AnnoTest {

  import opened Wrappers
  import opened Bytes
  import opened Anno

  const AWord: Bytes := [65]                                     // A
  const FieldWord: Bytes := [102, 105, 101, 108, 100]            // field
  const FinderWord: Bytes := [102, 105, 110, 100, 101, 114]      // finder
  const WillWord: Bytes := [119, 105, 108, 108]                  // will
  const BeWord: Bytes := [98, 101]                               // be
  const AbleWord: Bytes := [97, 98, 108, 101]                    // able
  const ToWord: Bytes := [116, 111]                              // to
  const FindWord: Bytes := [102, 105, 110, 100]                  // find
  const FieldsWord: Bytes := [102, 105, 101, 108, 100, 115, 46]  // fields.

  const Words: seq<Bytes> := [AWord, FieldWord, FinderWord, WillWord, BeWord, AbleWord, ToWord, FindWord, FieldsWord]

  // The sentence from its last word back to its first: each suffix is one
  // word, a space and the next suffix.
  const FromFields: Bytes := FieldsWord
  const FromFind: Bytes := FindWord + [32] + FromFields
  const FromTo: Bytes := ToWord + [32] + FromFind
  const FromAble: Bytes := AbleWord + [32] + FromTo
  const FromBe: Bytes := BeWord + [32] + FromAble
  const FromWill: Bytes := WillWord + [32] + FromBe
  const FromFinder: Bytes := FinderWord + [32] + FromWill
  const FromField: Bytes := FieldWord + [32] + FromFinder

  /** "A field finder will be able to find fields." */
  const Sentence: Bytes := AWord + [32] + FromField

  const ThisKind: string := "thiskind"

  /** The test's classifier: it accepts the fields "field", "able" and
      "find" and records each field as it is. */
  function Classify(f: Bytes): (bool, Bytes)
  {
    (f == FieldWord || f == AbleWord || f == FindWord, f)
  }

  /** The sentence is its nine words joined by single spaces. */
  lemma SentenceIsWords()
    ensures Sentence == Unwords(Words)
  {
    UnwordsCons([FindWord, FieldsWord]);
    assert [FindWord, FieldsWord][1..] == [FieldsWord];
    UnwordsCons([ToWord, FindWord, FieldsWord]);
    assert [ToWord, FindWord, FieldsWord][1..] == [FindWord, FieldsWord];
    UnwordsCons([AbleWord, ToWord, FindWord, FieldsWord]);
    assert [AbleWord, ToWord, FindWord, FieldsWord][1..] == [ToWord, FindWord, FieldsWord];
    UnwordsCons([BeWord, AbleWord, ToWord, FindWord, FieldsWord]);
    assert [BeWord, AbleWord, ToWord, FindWord, FieldsWord][1..] == [AbleWord, ToWord, FindWord, FieldsWord];
    UnwordsCons([WillWord, BeWord, AbleWord, ToWord, FindWord, FieldsWord]);
    assert [WillWord, BeWord, AbleWord, ToWord, FindWord, FieldsWord][1..] == [BeWord, AbleWord, ToWord, FindWord, FieldsWord];
    UnwordsCons([FinderWord, WillWord, BeWord, AbleWord, ToWord, FindWord, FieldsWord]);
    assert [FinderWord, WillWord, BeWord, AbleWord, ToWord, FindWord, FieldsWord][1..] == [WillWord, BeWord, AbleWord, ToWord, FindWord, FieldsWord];
    UnwordsCons([FieldWord, FinderWord, WillWord, BeWord, AbleWord, ToWord, FindWord, FieldsWord]);
    assert [FieldWord, FinderWord, WillWord, BeWord, AbleWord, ToWord, FindWord, FieldsWord][1..] == [FinderWord, WillWord, BeWord, AbleWord, ToWord, FindWord, FieldsWord];
    UnwordsCons(Words);
    assert Words[1..] == [FieldWord, FinderWord, WillWord, BeWord, AbleWord, ToWord, FindWord, FieldsWord];
  }

  /** None of the nine words is empty or holds a space. */
  lemma WordsAreWords()
    ensures forall k :: 0 <= k < |Words| ==> IsWord(Words[k])
  {
    assert IsWord(AWord);
    assert IsWord(FieldWord);
    assert IsWord(FinderWord);
    assert IsWord(WillWord);
    assert IsWord(BeWord);
    assert IsWord(AbleWord);
    assert IsWord(ToWord);
    assert IsWord(FindWord);
    assert IsWord(FieldsWord);
  }

  /** bytes.Fields splits the sentence into its nine words. */
  lemma SentenceFields()
    ensures Fields(Sentence) == Words
  {
    SentenceIsWords();
    WordsAreWords();
    FieldsOfUnwords(Words);
  }

  /** The values the classifier accepts from `fields`, one field at a time. */
  lemma AcceptedCons(fields: seq<Bytes>)
    requires fields != []
    ensures Accepted(Classify, fields)
            == (if Classify(fields[0]).0 then [fields[0]] else []) + Accepted(Classify, fields[1..])
  {
  }

  /** The classifier's verdict on each word of the sentence. */
  lemma ClassifyWords()
    ensures Classify(AWord).0 == false
    ensures Classify(FieldWord).0 == true
    ensures Classify(FinderWord).0 == false
    ensures Classify(WillWord).0 == false
    ensures Classify(BeWord).0 == false
    ensures Classify(AbleWord).0 == true
    ensures Classify(ToWord).0 == false
    ensures Classify(FindWord).0 == true
    ensures Classify(FieldsWord).0 == false
  {
  }

  /** The classifier accepts "field", "able" and "find", in sentence order. */
  lemma SentenceAccepted()
    ensures Accepted(Classify, Words) == [FieldWord, AbleWord, FindWord]
  {
    ClassifyWords();
    AcceptedCons([FieldsWord]);
    assert [FieldsWord][1..] == [];
    assert Accepted(Classify, [FieldsWord]) == [];
    AcceptedCons([FindWord, FieldsWord]);
    assert [FindWord, FieldsWord][1..] == [FieldsWord];
    assert Accepted(Classify, [FindWord, FieldsWord]) == [FindWord];
    AcceptedCons([ToWord, FindWord, FieldsWord]);
    assert [ToWord, FindWord, FieldsWord][1..] == [FindWord, FieldsWord];
    assert Accepted(Classify, [ToWord, FindWord, FieldsWord]) == [FindWord];
    AcceptedCons([AbleWord, ToWord, FindWord, FieldsWord]);
    assert [AbleWord, ToWord, FindWord, FieldsWord][1..] == [ToWord, FindWord, FieldsWord];
    assert Accepted(Classify, [AbleWord, ToWord, FindWord, FieldsWord]) == [AbleWord, FindWord];
    AcceptedCons([BeWord, AbleWord, ToWord, FindWord, FieldsWord]);
    assert [BeWord, AbleWord, ToWord, FindWord, FieldsWord][1..] == [AbleWord, ToWord, FindWord, FieldsWord];
    assert Accepted(Classify, [BeWord, AbleWord, ToWord, FindWord, FieldsWord]) == [AbleWord, FindWord];
    AcceptedCons([WillWord, BeWord, AbleWord, ToWord, FindWord, FieldsWord]);
    assert [WillWord, BeWord, AbleWord, ToWord, FindWord, FieldsWord][1..] == [BeWord, AbleWord, ToWord, FindWord, FieldsWord];
    assert Accepted(Classify, [WillWord, BeWord, AbleWord, ToWord, FindWord, FieldsWord]) == [AbleWord, FindWord];
    AcceptedCons([FinderWord, WillWord, BeWord, AbleWord, ToWord, FindWord, FieldsWord]);
    assert [FinderWord, WillWord, BeWord, AbleWord, ToWord, FindWord, FieldsWord][1..] == [WillWord, BeWord, AbleWord, ToWord, FindWord, FieldsWord];
    assert Accepted(Classify, [FinderWord, WillWord, BeWord, AbleWord, ToWord, FindWord, FieldsWord]) == [AbleWord, FindWord];
    AcceptedCons([FieldWord, FinderWord, WillWord, BeWord, AbleWord, ToWord, FindWord, FieldsWord]);
    assert [FieldWord, FinderWord, WillWord, BeWord, AbleWord, ToWord, FindWord, FieldsWord][1..] == [FinderWord, WillWord, BeWord, AbleWord, ToWord, FindWord, FieldsWord];
    assert Accepted(Classify, [FieldWord, FinderWord, WillWord, BeWord, AbleWord, ToWord, FindWord, FieldsWord]) == [FieldWord, AbleWord, FindWord];
    AcceptedCons([AWord, FieldWord, FinderWord, WillWord, BeWord, AbleWord, ToWord, FindWord, FieldsWord]);
    assert [AWord, FieldWord, FinderWord, WillWord, BeWord, AbleWord, ToWord, FindWord, FieldsWord][1..] == [FieldWord, FinderWord, WillWord, BeWord, AbleWord, ToWord, FindWord, FieldsWord];
  }

  /** "field" first occurs at offset 2. */
  lemma FieldAt2()
    ensures Index(Sentence, FieldWord) == 2
  {
    assert IsAt(FromField, FieldWord, 0) by {
      assert FromField[..|FieldWord|] == FieldWord;
    }
    forall j | 0 <= j <= |AWord| ensures !IsAt(Sentence, FieldWord, j) {
      NotAtFirstByte(Sentence, FieldWord, j);
    }
    FirstAtAfter(AWord, FromField, FieldWord, 0);
  }

  /** "find" first occurs at offset 8, at the start of "finder". */
  lemma FindAt8()
    ensures Index(Sentence, FindWord) == 8
  {
    assert IsAt(FromFinder, FindWord, 0) by {
      assert FromFinder[..|FindWord|] == FindWord;
    }
    forall j | 0 <= j <= |FieldWord| ensures !IsAt(FromField, FindWord, j) {
      if j == 0 {
        assert FromField[..|FindWord|][2] != FindWord[2];
      } else {
        NotAtFirstByte(FromField, FindWord, j);
      }
    }
    FirstAtAfter(FieldWord, FromFinder, FindWord, 0);
    forall j | 0 <= j <= |AWord| ensures !IsAt(Sentence, FindWord, j) {
      NotAtFirstByte(Sentence, FindWord, j);
    }
    FirstAtAfter(AWord, FromField, FindWord, 6);
  }

  /** "able" first occurs at offset 23: no byte before it is an "a". */
  lemma AbleAt23()
    ensures Index(Sentence, AbleWord) == 23
  {
    assert IsAt(FromAble, AbleWord, 0) by {
      assert FromAble[..|AbleWord|] == AbleWord;
    }
    forall j | 0 <= j <= |BeWord| ensures !IsAt(FromBe, AbleWord, j) {
      NotAtFirstByte(FromBe, AbleWord, j);
    }
    FirstAtAfter(BeWord, FromAble, AbleWord, 0);
    forall j | 0 <= j <= |WillWord| ensures !IsAt(FromWill, AbleWord, j) {
      NotAtFirstByte(FromWill, AbleWord, j);
    }
    FirstAtAfter(WillWord, FromBe, AbleWord, 3);
    forall j | 0 <= j <= |FinderWord| ensures !IsAt(FromFinder, AbleWord, j) {
      NotAtFirstByte(FromFinder, AbleWord, j);
    }
    FirstAtAfter(FinderWord, FromWill, AbleWord, 8);
    forall j | 0 <= j <= |FieldWord| ensures !IsAt(FromField, AbleWord, j) {
      NotAtFirstByte(FromField, AbleWord, j);
    }
    FirstAtAfter(FieldWord, FromFinder, AbleWord, 15);
    forall j | 0 <= j <= |AWord| ensures !IsAt(Sentence, AbleWord, j) {
      NotAtFirstByte(Sentence, AbleWord, j);
    }
    FirstAtAfter(AWord, FromField, AbleWord, 21);
  }

  /** The notes TestFieldFinder expects, in the order the finder returns them. */
  const Found: seq<Note> := [Note(FieldWord, 2, ThisKind), Note(AbleWord, 23, ThisKind), Note(FindWord, 8, ThisKind)]

  /** The finder returns "field" at 2, "able" at 23 and "find" at 8, all of
      kind "thiskind", and no error. */
  lemma FieldFinderFinds()
    ensures FieldFunc(ThisKind, Classify)(Sentence) == Outcome(Found, None)
  {
    SentenceFields();
    SentenceAccepted();
    FieldAt2();
    AbleAt23();
    FindAt8();
    var acc := [FieldWord, AbleWord, FindWord];
    ScanOutcome(ThisKind, Classify, Sentence, Words);
    assert FirstMissing(Sentence, acc) == -1;
    assert Located(ThisKind, Sentence, acc) == Found;
  }

  /** Sorting those notes by start gives "field" at 2, "find" at 8, "able" at 23. */
  lemma FieldFinderSorted()
    ensures SortByStart(Found) == [Found[0], Found[2], Found[1]]
  {
    var field, able, find := Found[0], Found[1], Found[2];
    assert Found[1..][1..] == [find];
    assert SortByStart([find]) == [find];
    assert SortByStart(Found[1..]) == [find, able] by {
      assert Found[1..] == [able, find];
      assert Insert(able, [find]) == [find, able];
    }
    assert Insert(field, [find, able]) == [field, find, able];
  }
}
