/**
 * Single-word conversions of the `ARPA` converter and the worked scenarios it is
 * documented with: a found word, a missing word, and interior punctuation.
 */
module ArpaScenarios {
  import opened PyStr
  import opened Arpa

  /** A text that is a single word converts to a space and that word's piece, then the marker. */
  lemma ConvertSingleWord(dict: map<string, string>, word: string, punct: string, eos: bool)
    requires IsWord(word)
    ensures Convert(dict, word, punct, eos) == Finish(" " + Piece(dict, punct, word), eos)
  {
    WordsOfWord(word);
    var ps := Pieces(dict, punct, [word]);
    assert ps == [Piece(dict, punct, word)];
    assert Emit(ps) == " " + ps[0] by {
      EmitPrefixStep(ps, 0);
      assert ps[..1] == ps;
    }
  }

  /** Regrouping the output of a found word: it ends in the word's last punctuation character, or in `}` when there is none. */
  lemma BracedOutput(phonemes: string, endChars: string)
    ensures var out := " " + ("{" + phonemes + "}" + endChars);
      && out + ";" == " {" + phonemes + "}" + endChars + ";"
      && out[|out| - 1] == (if endChars == [] then '}' else endChars[|endChars| - 1])
  {
    var out := " " + ("{" + phonemes + "}" + endChars);
    assert " " + "{" == " {";
    assert out == " {" + phonemes + "}" + endChars;
  }

  /**
   * A single found word whose punctuation does not end in `;`: a space, the
   * phonemes in braces, all of the word's punctuation in order (interior
   * characters included) and the marker.
   */
  lemma ConvertFoundWord(dict: map<string, string>, word: string, punct: string, phonemes: string, endChars: string)
    requires IsWord(word)
    requires Upper(RStripChars(word, punct)) in dict && dict[Upper(RStripChars(word, punct))] == phonemes
    requires EndChars(word, punct) == endChars && (endChars == [] || endChars[|endChars| - 1] != ';')
    ensures Convert(dict, word, punct, true) == " {" + phonemes + "}" + endChars + ";"
  {
    BracedOutput(phonemes, endChars);
    PieceHit(dict, punct, word);
    ConvertSingleWord(dict, word, punct, true);
  }

  /** A single missing word that does not end in `;` and has punctuation only at its end: a space, the word and the marker. */
  lemma ConvertMissingWord(dict: map<string, string>, word: string, punct: string)
    requires IsWord(word) && word[|word| - 1] != ';'
    requires Upper(RStripChars(word, punct)) !in dict
    requires EndChars(RStripChars(word, punct), punct) == []
    ensures Convert(dict, word, punct, true) == " " + word + ";"
  {
    assert Piece(dict, punct, word) == word by {
      PieceMissUnchanged(dict, punct, word);
    }
    assert Convert(dict, word, punct, true) == Finish(" " + word, true) by {
      ConvertSingleWord(dict, word, punct, true);
    }
    var out := " " + word;
    assert out[|out| - 1] == word[|word| - 1];
  }

  /** `"Hello!"` is one word. */
  lemma HelloIsWord(word: string)
    requires word == "Hello!"
    ensures IsWord(word)
  {
  }

  /** The punctuation of `"Hello!"` is `!`. */
  lemma HelloEndChars(word: string, punct: string)
    requires word == "Hello!" && punct == DefaultPunctuation
    ensures EndChars(word, punct) == "!"
  {
    assert "Hello" + "!" == "Hello!";
    assert EndChars("Hello", DefaultPunctuation) == [];
    EndCharsAppend("Hello", "!", punct);
  }

  /** The core of `"Hello!"` upper-cases to `HELLO`. */
  lemma HelloCore(word: string, punct: string)
    requires word == "Hello!" && punct == DefaultPunctuation
    ensures Upper(RStripChars(word, punct)) == "HELLO"
  {
    assert RStripChars(word, punct) == "Hello";
    assert Upper("Hello") == "HELLO";
  }

  /** With any dictionary holding `HELLO -> AH L OW1`, `"Hello!"` becomes `" {AH L OW1}!;"`. */
  lemma ExampleHello(dict: map<string, string>, text: string, punct: string)
    requires "HELLO" in dict && dict["HELLO"] == "AH L OW1"
    requires text == "Hello!" && punct == DefaultPunctuation
    ensures Convert(dict, text, punct, true) == " {AH L OW1}!;"
  {
    assert " {" + "AH L OW1" + "}" + "!" + ";" == " {AH L OW1}!;";
    HelloIsWord(text);
    HelloEndChars(text, punct);
    HelloCore(text, punct);
    ConvertFoundWord(dict, text, punct, "AH L OW1", "!");
  }

  /** `"Test."` is one word whose core `Test` holds no punctuation. */
  lemma TestParts(word: string, punct: string)
    requires word == "Test." && punct == DefaultPunctuation
    ensures IsWord(word) && word[|word| - 1] != ';'
    ensures EndChars(RStripChars(word, punct), punct) == []
  {
    assert RStripChars(word, punct) == "Test";
    assert EndChars("Test", punct) == [];
  }

  /** With an empty dictionary `"Test."` becomes `" Test.;"`: the leading space is kept. */
  lemma ExampleTest(dict: map<string, string>, text: string, punct: string)
    requires dict == map[] && text == "Test." && punct == DefaultPunctuation
    ensures Convert(dict, text, punct, true) == " Test.;"
  {
    assert " " + "Test." + ";" == " Test.;";
    TestParts(text, punct);
    ConvertMissingWord(dict, text, punct);
  }

  /** `"U.S."` is one word whose core `U.S` keeps an interior `.`. */
  lemma InitialsParts(word: string, punct: string)
    requires word == "U.S." && punct == DefaultPunctuation
    ensures IsWord(word)
    ensures RStripChars(word, punct) == "U.S"
    ensures EndChars("U.S", punct) == "."
  {
  }

  /** Interior punctuation is collected too: `"U.S."` becomes `" U.S.."` (shown without the marker). */
  lemma ExampleInitials(dict: map<string, string>, text: string, punct: string)
    requires dict == map[] && text == "U.S." && punct == DefaultPunctuation
    ensures Convert(dict, text, punct, false) == " U.S.."
  {
    assert " " + ("U.S" + "." + ".") == " U.S..";
    assert "U.S." == "U.S" + ".";
    InitialsParts(text, punct);
    PieceMiss(dict, punct, text);
    ConvertSingleWord(dict, text, punct, false);
  }
}
