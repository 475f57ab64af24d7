/** The scenarios of emoji/emoji_test.go: the two emoji of its sentence,
    where Find places them, and what the expander makes of them. */
module EmojiTest {

  import opened Wrappers
  import opened Bytes
  import opened Anno
  import opened Expander
  import Emoji

  const BeerName: Bytes := [58, 98, 101, 101, 114, 58]          // :beer:
  const MakesWord: Bytes := [109, 97, 107, 101, 115]            // makes
  const MeWord: Bytes := [109, 101]                             // me
  const WantWord: Bytes := [119, 97, 110, 116]                  // want
  const ToWord: Bytes := [116, 111]                             // to
  const SmileName: Bytes := [58, 115, 109, 105, 108, 101, 58]   // :smile:
  const YouWord: Bytes := [121, 111, 117]                       // you
  const KnowWord: Bytes := [107, 110, 111, 119, 46]             // know.

  const Words: seq<Bytes> := [BeerName, MakesWord, MeWord, WantWord, ToWord, SmileName, YouWord, KnowWord]

  // The sentence from its last word back to its first.
  const FromKnow: Bytes := KnowWord
  const FromYou: Bytes := YouWord + [32] + FromKnow
  const FromSmile: Bytes := SmileName + [32] + FromYou
  const FromTo: Bytes := ToWord + [32] + FromSmile
  const FromWant: Bytes := WantWord + [32] + FromTo
  const FromMe: Bytes := MeWord + [32] + FromWant
  const FromMakes: Bytes := MakesWord + [32] + FromMe

  /** ":beer: makes me want to :smile: you know." */
  const Source: Bytes := BeerName + [32] + FromMakes

  /** The UTF-8 bytes of U+1F37A BEER MUG and U+1F604 SMILING FACE WITH OPEN
      MOUTH AND SMILING EYES, the code table's entries for the two names. */
  const BeerGlyph: Bytes := [240, 159, 141, 186]
  const SmileGlyph: Bytes := [240, 159, 152, 132]

  /** The notes the test expects: ":beer:" at 0 and ":smile:" at 24. */
  const Found: seq<Note> := [Note(BeerName, 0, "emoji"), Note(SmileName, 24, "emoji")]

  /** The sentence is its eight words joined by single spaces. */
  lemma SourceIsWords()
    ensures Source == Unwords(Words)
  {
    UnwordsCons([YouWord, KnowWord]);
    assert [YouWord, KnowWord][1..] == [KnowWord];
    UnwordsCons([SmileName, YouWord, KnowWord]);
    assert [SmileName, YouWord, KnowWord][1..] == [YouWord, KnowWord];
    UnwordsCons([ToWord, SmileName, YouWord, KnowWord]);
    assert [ToWord, SmileName, YouWord, KnowWord][1..] == [SmileName, YouWord, KnowWord];
    UnwordsCons([WantWord, ToWord, SmileName, YouWord, KnowWord]);
    assert [WantWord, ToWord, SmileName, YouWord, KnowWord][1..] == [ToWord, SmileName, YouWord, KnowWord];
    UnwordsCons([MeWord, WantWord, ToWord, SmileName, YouWord, KnowWord]);
    assert [MeWord, WantWord, ToWord, SmileName, YouWord, KnowWord][1..] == [WantWord, ToWord, SmileName, YouWord, KnowWord];
    UnwordsCons([MakesWord, MeWord, WantWord, ToWord, SmileName, YouWord, KnowWord]);
    assert [MakesWord, MeWord, WantWord, ToWord, SmileName, YouWord, KnowWord][1..] == [MeWord, WantWord, ToWord, SmileName, YouWord, KnowWord];
    UnwordsCons(Words);
    assert Words[1..] == [MakesWord, MeWord, WantWord, ToWord, SmileName, YouWord, KnowWord];
  }

  /** None of the eight words is empty or holds a space. */
  lemma WordsAreWords()
    ensures forall k :: 0 <= k < |Words| ==> IsWord(Words[k])
  {
    assert IsWord(BeerName);
    assert IsWord(MakesWord);
    assert IsWord(MeWord);
    assert IsWord(WantWord);
    assert IsWord(ToWord);
    assert IsWord(SmileName);
    assert IsWord(YouWord);
    assert IsWord(KnowWord);
  }

  /** bytes.Fields splits the sentence into its eight words. */
  lemma SourceFields()
    ensures Fields(Source) == Words
  {
    SourceIsWords();
    WordsAreWords();
    FieldsOfUnwords(Words);
  }

  /** The emoji classifier's verdict on each word of the sentence. */
  lemma ClassifyWords()
    ensures Emoji.EmojiField(BeerName).0 == true
    ensures Emoji.EmojiField(MakesWord).0 == false
    ensures Emoji.EmojiField(MeWord).0 == false
    ensures Emoji.EmojiField(WantWord).0 == false
    ensures Emoji.EmojiField(ToWord).0 == false
    ensures Emoji.EmojiField(SmileName).0 == true
    ensures Emoji.EmojiField(YouWord).0 == false
    ensures Emoji.EmojiField(KnowWord).0 == false
  {
  }

  /** The values the classifier accepts from `fields`, one field at a time. */
  lemma AcceptedCons(fields: seq<Bytes>)
    requires fields != []
    ensures Accepted(Emoji.EmojiField, fields)
            == (if Emoji.EmojiField(fields[0]).0 then [fields[0]] else []) + Accepted(Emoji.EmojiField, fields[1..])
  {
  }

  /** The classifier accepts ":beer:" and ":smile:", in sentence order. */
  lemma SourceAccepted()
    ensures Accepted(Emoji.EmojiField, Words) == [BeerName, SmileName]
  {
    ClassifyWords();
    AcceptedCons([KnowWord]);
    assert [KnowWord][1..] == [];
    assert Accepted(Emoji.EmojiField, [KnowWord]) == [];
    AcceptedCons([YouWord, KnowWord]);
    assert [YouWord, KnowWord][1..] == [KnowWord];
    assert Accepted(Emoji.EmojiField, [YouWord, KnowWord]) == [];
    AcceptedCons([SmileName, YouWord, KnowWord]);
    assert [SmileName, YouWord, KnowWord][1..] == [YouWord, KnowWord];
    assert Accepted(Emoji.EmojiField, [SmileName, YouWord, KnowWord]) == [SmileName];
    AcceptedCons([ToWord, SmileName, YouWord, KnowWord]);
    assert [ToWord, SmileName, YouWord, KnowWord][1..] == [SmileName, YouWord, KnowWord];
    assert Accepted(Emoji.EmojiField, [ToWord, SmileName, YouWord, KnowWord]) == [SmileName];
    AcceptedCons([WantWord, ToWord, SmileName, YouWord, KnowWord]);
    assert [WantWord, ToWord, SmileName, YouWord, KnowWord][1..] == [ToWord, SmileName, YouWord, KnowWord];
    assert Accepted(Emoji.EmojiField, [WantWord, ToWord, SmileName, YouWord, KnowWord]) == [SmileName];
    AcceptedCons([MeWord, WantWord, ToWord, SmileName, YouWord, KnowWord]);
    assert [MeWord, WantWord, ToWord, SmileName, YouWord, KnowWord][1..] == [WantWord, ToWord, SmileName, YouWord, KnowWord];
    assert Accepted(Emoji.EmojiField, [MeWord, WantWord, ToWord, SmileName, YouWord, KnowWord]) == [SmileName];
    AcceptedCons([MakesWord, MeWord, WantWord, ToWord, SmileName, YouWord, KnowWord]);
    assert [MakesWord, MeWord, WantWord, ToWord, SmileName, YouWord, KnowWord][1..] == [MeWord, WantWord, ToWord, SmileName, YouWord, KnowWord];
    assert Accepted(Emoji.EmojiField, [MakesWord, MeWord, WantWord, ToWord, SmileName, YouWord, KnowWord]) == [SmileName];
    AcceptedCons(Words);
    assert Words[1..] == [MakesWord, MeWord, WantWord, ToWord, SmileName, YouWord, KnowWord];
  }

  /** ":beer:" first occurs at offset 0. */
  lemma BeerAt0()
    ensures Index(Source, BeerName) == 0
  {
    assert Source[..|BeerName|] == BeerName;
    assert IsFirstAt(Source, BeerName, 0);
  }

  /** ":smile:" first occurs at offset 24: the colons of ":beer:" are not
      followed by an "s". */
  lemma SmileAt24()
    ensures Index(Source, SmileName) == 24
  {
    assert IsFirstAt(FromSmile, SmileName, 0) by {
      assert FromSmile[..|SmileName|] == SmileName;
    }
    forall j | 0 <= j <= |ToWord| ensures !IsAt(FromTo, SmileName, j) {
      NotAtFirstByte(FromTo, SmileName, j);
    }
    FirstAtAfter(ToWord, FromSmile, SmileName, 0);
    forall j | 0 <= j <= |WantWord| ensures !IsAt(FromWant, SmileName, j) {
      NotAtFirstByte(FromWant, SmileName, j);
    }
    FirstAtAfter(WantWord, FromTo, SmileName, 3);
    forall j | 0 <= j <= |MeWord| ensures !IsAt(FromMe, SmileName, j) {
      NotAtFirstByte(FromMe, SmileName, j);
    }
    FirstAtAfter(MeWord, FromWant, SmileName, 8);
    forall j | 0 <= j <= |MakesWord| ensures !IsAt(FromMakes, SmileName, j) {
      NotAtFirstByte(FromMakes, SmileName, j);
    }
    FirstAtAfter(MakesWord, FromMe, SmileName, 11);
    SmileNotInBeer();
    FirstAtAfter(BeerName, FromMakes, SmileName, 17);
  }

  /** ":smile:" does not start inside ":beer: ": its colons are followed
      by "b" and by a space. */
  lemma SmileNotInBeer()
    ensures forall j :: 0 <= j <= |BeerName| ==> !IsAt(Source, SmileName, j)
  {
    forall j | 0 <= j <= |BeerName| ensures !IsAt(Source, SmileName, j) {
      if j == 0 || j == 5 {
        assert Source[j..j + |SmileName|][1] != SmileName[1];
      } else {
        NotAtFirstByte(Source, SmileName, j);
      }
    }
  }

  /** Find returns ":beer:" at 0 and ":smile:" at 24, both of kind "emoji",
      and no error. */
  lemma EmojiFinds()
    ensures Emoji.Find(Source) == Outcome(Found, None)
  {
    SourceFields();
    SourceAccepted();
    BeerAt0();
    SmileAt24();
    var acc := [BeerName, SmileName];
    ScanOutcome("emoji", Emoji.EmojiField, Source, Words);
    assert FirstMissing(Source, acc) == -1;
    assert Located("emoji", Source, acc) == Found;
  }

  /** The text between the two names, and the text after the second. */
  const Between: Bytes := [32] + (MakesWord + [32] + (MeWord + [32] + (WantWord + [32] + (ToWord + [32]))))
  const After: Bytes := [32] + FromYou

  /** The leading bytes of `w + " " + t`. */
  lemma TakeCons(w: Bytes, t: Bytes, n: nat)
    requires n <= |t|
    ensures (w + [32] + t)[..|w| + 1 + n] == w + [32] + t[..n]
  {
  }

  /** The bytes of `w + " " + t` from the space on. */
  lemma DropWord(w: Bytes, t: Bytes)
    ensures (w + [32] + t)[|w|..] == [32] + t
  {
  }

  /** The slice of the sentence between the two names. */
  lemma SourceBetween()
    ensures Source[6..24] == Between
  {
    TakeCons(ToWord, FromSmile, 0);
    TakeCons(WantWord, FromTo, 3);
    assert FromWant[..8] == WantWord + [32] + (ToWord + [32]);
    TakeCons(MeWord, FromWant, 8);
    TakeCons(MakesWord, FromMe, 11);
    DropWord(BeerName, FromMakes);
    assert Source[6..24] == Source[6..][..18];
    assert ([32] + FromMakes)[..18] == [32] + FromMakes[..17];
  }

  /** The slice of the sentence after the second name. */
  lemma SourceAfter()
    ensures Source[31..] == After
  {
    DropWord(SmileName, FromYou);
    assert Source[24..] == FromSmile;
    assert Source[31..] == Source[24..][7..];
  }

  /** With the code table's entries for the two names, expanding those notes
      gives the sentence with each name replaced by its glyph. */
  lemma EmojiExpands(codeMap: map<Bytes, Bytes>)
    requires BeerName in codeMap && codeMap[BeerName] == BeerGlyph
    requires SmileName in codeMap && codeMap[SmileName] == SmileGlyph
    ensures Runs(Emoji.EmojiRewrites(codeMap), State(Source, Found), 0)
    ensures Expanded(Emoji.EmojiRewrites(codeMap), Source, Found).text == BeerGlyph + Between + SmileGlyph + After
  {
    Emoji.ExpandTwoEmoji(codeMap, Source, Found[0], Found[1]);
    SourceBetween();
    SourceAfter();
    assert Source[..0] + BeerGlyph == BeerGlyph;
  }

  /** The sentence of the punctuation test, "\":beer:\"?", is one field that
      begins with a quote; this classifier trims nothing, so Find reports no
      emoji there. */
  const Quoted: Bytes := [34, 58, 98, 101, 101, 114, 58, 34, 63]

  lemma QuotedFindsNothing()
    ensures Emoji.Find(Quoted) == Outcome([], None)
  {
    FieldsOfUnwords([Quoted]);
    assert Unwords([Quoted]) == Quoted;
    assert Accepted(Emoji.EmojiField, [Quoted]) == [] by {
      assert [Quoted][1..] == [];
    }
    ScanOutcome("emoji", Emoji.EmojiField, Quoted, [Quoted]);
  }
}
