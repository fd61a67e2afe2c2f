/**
 * The `ARPA` text converter (`django_TTS/app/vocoder.py`, lines 62-72): every
 * whitespace-delimited word loses its trailing punctuation, is replaced by
 * `{phonemes}` when its upper-cased core is a dictionary key, gets all of its
 * punctuation characters re-attached, and is appended after a space; finally an
 * end-of-sequence `;` is added unless the output already ends in one.
 */
module Arpa {
  import opened PyStr

  /** The default `punctuation` argument, `r"!?,.;"`. */
  const DefaultPunctuation: string := "!?,.;"

  /** `''.join(c for c in word if c in punctuation)`: the word's punctuation characters, in order. */
  function EndChars(word: string, punct: string): string
  {
    if word == [] then []
    else (if word[0] in punct then [word[0]] else []) + EndChars(word[1..], punct)
  }

  /** Collecting punctuation distributes over concatenation: order is kept. */
  lemma {:induction false} EndCharsAppend(a: string, b: string, punct: string)
    ensures EndChars(a + b, punct) == EndChars(a, punct) + EndChars(b, punct)
  {
    if a == [] {
      assert a + b == b;
    } else {
      var head: string := if a[0] in punct then [a[0]] else [];
      assert (a + b)[1..] == a[1..] + b;
      assert (a + b)[0] == a[0];
      calc {
        EndChars(a + b, punct);
        head + EndChars(a[1..] + b, punct);
        { EndCharsAppend(a[1..], b, punct); }
        head + (EndChars(a[1..], punct) + EndChars(b, punct));
        (head + EndChars(a[1..], punct)) + EndChars(b, punct);
      }
    }
  }

  /** A character is collected exactly when it occurs in the word and is a punctuation character. */
  lemma {:induction false} EndCharsMembers(word: string, punct: string)
    ensures forall c :: c in EndChars(word, punct) <==> c in word && c in punct
  {
    if word != [] {
      var head: string := if word[0] in punct then [word[0]] else [];
      EndCharsMembers(word[1..], punct);
      assert EndChars(word, punct) == head + EndChars(word[1..], punct);
      assert word == [word[0]] + word[1..];
      forall c ensures c in EndChars(word, punct) <==> c in word && c in punct {
        assert c in head + EndChars(word[1..], punct) <==> c in head || c in EndChars(word[1..], punct);
        assert c in word <==> c == word[0] || c in word[1..];
      }
    }
  }

  /** A string made only of punctuation is collected whole. */
  lemma {:induction false} EndCharsAllPunct(s: string, punct: string)
    requires forall i :: 0 <= i < |s| ==> s[i] in punct
    ensures EndChars(s, punct) == s
  {
    if s != [] {
      EndCharsAllPunct(s[1..], punct);
    }
  }

  /** `word.rstrip(end_chars)`: the word after the source strips the characters it collected. */
  function Core(word: string, punct: string): string {
    RStripChars(word, EndChars(word, punct))
  }

  /**
   * Stripping the collected characters is stripping the maximal trailing run of
   * punctuation: the core is a prefix of the word that does not end in
   * punctuation, and what was removed is all punctuation.
   */
  lemma CoreStripsTrailingPunct(word: string, punct: string)
    ensures Core(word, punct) == RStripChars(word, punct)
    ensures var c := Core(word, punct);
      && word == c + word[|c|..]
      && (c == [] || c[|c| - 1] !in punct)
      && EndChars(word[|c|..], punct) == word[|c|..]
      && EndChars(word, punct) == EndChars(c, punct) + word[|c|..]
  {
    CoreIsRStrip(word, punct);
    CoreTail(word, punct);
  }

  /**
   * `rstrip(end_chars)` and `rstrip(punct)` agree, since a character of the word
   * is in one exactly when it is in the other; so the core does not end in punctuation.
   */
  lemma CoreIsRStrip(word: string, punct: string)
    ensures Core(word, punct) == RStripChars(word, punct)
    ensures var c := Core(word, punct); c == [] || c[|c| - 1] !in punct
  {
    var e := EndChars(word, punct);
    EndCharsMembers(word, punct);
    forall i | 0 <= i < |word| ensures word[i] in e <==> word[i] in punct {
      assert word[i] in word;
    }
    RStripCharsAgree(word, e, punct);
  }

  /** The word is its core followed by the stripped tail, and the tail is the last of the collected punctuation. */
  lemma CoreTail(word: string, punct: string)
    ensures var c := Core(word, punct);
      && word == c + word[|c|..]
      && EndChars(word[|c|..], punct) == word[|c|..]
      && EndChars(word, punct) == EndChars(c, punct) + word[|c|..]
  {
    CoreIsRStrip(word, punct);
    var c := Core(word, punct);
    var tail := word[|c|..];
    assert word == c + tail;
    StrippedTailIsPunct(word, punct);
    EndCharsAllPunct(tail, punct);
    EndCharsAppend(c, tail, punct);
  }

  /** What `rstrip(punct)` removes from a word is all punctuation. */
  lemma StrippedTailIsPunct(word: string, punct: string)
    ensures var tail := word[|RStripChars(word, punct)|..];
      forall i :: 0 <= i < |tail| ==> tail[i] in punct
  {
    var n := |RStripChars(word, punct)|;
    RStripCharsRemoves(word, punct);
    forall i | 0 <= i < |word[n..]| ensures word[n..][i] in punct {
      assert word[n..][i] == word[n + i];
    }
  }

  /** What one word contributes after its leading space: `word + end_chars` once the lookup is done. */
  function Piece(dict: map<string, string>, punct: string, word: string): string {
    var endChars := EndChars(word, punct);
    var core := Core(word, punct);
    var key := Upper(core);
    (if key in dict then "{" + dict[key] + "}" else core) + endChars
  }

  /** The pieces of the words, in word order. */
  function Pieces(dict: map<string, string>, punct: string, words: seq<string>): (ps: seq<string>)
    ensures |ps| == |words|
    ensures forall k {:trigger ps[k]} :: 0 <= k < |words| ==> ps[k] == Piece(dict, punct, words[k])
  {
    seq(|words|, k requires 0 <= k < |words| => Piece(dict, punct, words[k]))
  }

  /** The value of `out` once `" " + piece` has been appended for each of `pieces`. */
  function Emit(pieces: seq<string>): (out: string)
    ensures out == [] <==> pieces == []
    ensures out != [] ==> out[0] == ' '
  {
    if pieces == [] then []
    else Emit(pieces[..|pieces| - 1]) + " " + pieces[|pieces| - 1]
  }

  /** Extending the prefix of pieces by one appends a space and that piece. */
  lemma EmitPrefixStep(pieces: seq<string>, i: nat)
    requires i < |pieces|
    ensures Emit(pieces[..i + 1]) == Emit(pieces[..i]) + " " + pieces[i]
  {
    assert pieces[..i + 1][..i] == pieces[..i];
  }

  /** One pass of the loop: appending `" " + word + end_chars` to the output so far emits the next piece. */
  lemma EmitStep(pieces: seq<string>, i: nat, out: string, word: string, endChars: string)
    requires i < |pieces| && out == Emit(pieces[..i]) && word + endChars == pieces[i]
    ensures out + " " + word + endChars == Emit(pieces[..i + 1])
  {
    EmitPrefixStep(pieces, i);
    assert out + " " + word + endChars == out + " " + (word + endChars);
  }

  /** The return statement: the `;` end marker is added when asked for and not already there. */
  function Finish(out: string, eos: bool): (r: string)
    requires eos ==> out != []
    ensures !eos ==> r == out
    ensures eos ==> r != [] && r[|r| - 1] == ';'
    ensures eos ==> (r == out <==> out[|out| - 1] == ';')
    ensures r == out || r == out + ";"
  {
    if eos && out[|out| - 1] != ';' then out + ";" else out
  }

  /** `ARPA(text, punctuation, EOS_Token)`; the source fails on `out[-1]` when asked for the marker with no words. */
  function Convert(dict: map<string, string>, text: string, punct: string, eos: bool): (r: string)
    requires eos ==> Words(text) != []
    ensures r == [] <==> Words(text) == []
    ensures r != [] ==> r[0] == ' '
    ensures eos ==> r[|r| - 1] == ';'
  {
    Finish(Emit(Pieces(dict, punct, Words(text))), eos)
  }

  /**
   * The body of the word loop: collect the punctuation, strip it, and replace
   * the core by its braced phonemes when the upper-cased core is a key.
   */
  method ConvertWord(dict: map<string, string>, punct: string, w: string) returns (word: string, endChars: string)
    ensures endChars == EndChars(w, punct)
    ensures word + endChars == Piece(dict, punct, w)
  {
    endChars := EndChars(w, punct);
    word := RStripChars(w, endChars);
    if Upper(word) in dict {
      word := "{" + dict[Upper(word)] + "}";
    }
  }

  /** The converter as the source runs it: one pass over `text.split()`, appending to `out`. */
  method Arpa(dict: map<string, string>, text: string, punct: string, eos: bool) returns (r: string)
    requires eos ==> Words(text) != []
    ensures r == Convert(dict, text, punct, eos)
  {
    var words := Words(text);
    ghost var pieces := Pieces(dict, punct, words);
    var out := "";
    var i := 0;
    while i < |words|
      invariant 0 <= i <= |words|
      invariant out == Emit(pieces[..i])
    {
      var word, endChars := ConvertWord(dict, punct, words[i]);
      EmitStep(pieces, i, out, word, endChars);
      out := out + " " + word + endChars;
      i := i + 1;
    }
    assert pieces[..i] == pieces;
    r := if eos && out[|out| - 1] != ';' then out + ";" else out;
  }

  // ---------------------------------------------------------------------------
  // Properties

  /** Processing two runs of words one after the other appends their outputs. */
  lemma {:induction false} EmitAppend(a: seq<string>, b: seq<string>)
    ensures Emit(a + b) == Emit(a) + Emit(b)
    decreases |b|
  {
    if b == [] {
      assert a + b == a;
    } else {
      var ab, init, last := a + b, b[..|b| - 1], b[|b| - 1];
      assert ab[..|ab| - 1] == a + init;
      assert ab[|ab| - 1] == last;
      calc {
        Emit(ab);
        Emit(a + init) + " " + last;
        { EmitAppend(a, init); }
        Emit(a) + Emit(init) + " " + last;
        Emit(a) + (Emit(init) + " " + last);
        Emit(a) + Emit(b);
      }
    }
  }

  /** With at least one piece, the output is a space followed by the pieces joined by single spaces. */
  lemma {:induction false} EmitIsSpacedJoin(pieces: seq<string>)
    requires pieces != []
    ensures Emit(pieces) == " " + JoinSpace(pieces)
  {
    if |pieces| > 1 {
      var rest := pieces[1..];
      EmitIsSpacedJoin(rest);
      EmitAppend([pieces[0]], rest);
      assert [pieces[0]] + rest == pieces;
      assert [pieces[0]][..0] == [];
    }
  }

  /** A dictionary hit: the phonemes in braces, followed by every punctuation character of the word. */
  lemma PieceHit(dict: map<string, string>, punct: string, word: string)
    requires Upper(RStripChars(word, punct)) in dict
    ensures Piece(dict, punct, word) == "{" + dict[Upper(RStripChars(word, punct))] + "}" + EndChars(word, punct)
  {
    CoreStripsTrailingPunct(word, punct);
  }

  /**
   * A miss keeps the word's case and characters; its punctuation is re-appended
   * after the core, so punctuation inside the core appears twice.
   */
  lemma PieceMiss(dict: map<string, string>, punct: string, word: string)
    requires Upper(RStripChars(word, punct)) !in dict
    ensures var c := RStripChars(word, punct);
      Piece(dict, punct, word) == c + EndChars(c, punct) + word[|c|..]
  {
    CoreStripsTrailingPunct(word, punct);
  }

  /** A core without interior punctuation followed by the stripped tail gives the word back. */
  lemma RejoinCore(word: string, punct: string)
    requires EndChars(RStripChars(word, punct), punct) == []
    ensures var c := RStripChars(word, punct); c + EndChars(c, punct) + word[|c|..] == word
  {
    var c := RStripChars(word, punct);
    var tail := word[|c|..];
    assert c == word[..|c|];
    assert c + tail == word;
    assert c + EndChars(c, punct) == c;
  }

  /** A word that is missing from the dictionary and has punctuation only at its end comes out unchanged. */
  lemma PieceMissUnchanged(dict: map<string, string>, punct: string, word: string)
    requires Upper(RStripChars(word, punct)) !in dict
    requires EndChars(RStripChars(word, punct), punct) == []
    ensures Piece(dict, punct, word) == word
  {
    PieceMiss(dict, punct, word);
    RejoinCore(word, punct);
  }

  /** Keys are stored as read, so a key that is not its own upper-case form can never be hit. */
  lemma NonUpperKeyNeverHit(punct: string, word: string, key: string)
    requires Upper(key) != key
    ensures Upper(Core(word, punct)) != key
  {
    UpperIdempotent(Core(word, punct));
  }

  /** A text whose last word ends in `;` (a punctuation character) already carries the marker: none is added. */
  lemma ConvertKeepsExistingMarker(dict: map<string, string>, text: string, punct: string)
    requires Words(text) != []
    requires var w := Words(text)[|Words(text)| - 1]; w != [] && w[|w| - 1] == ';'
    requires ';' in punct
    ensures Convert(dict, text, punct, true) == Emit(Pieces(dict, punct, Words(text)))
  {
    var words := Words(text);
    var w := words[|words| - 1];
    var init := w[..|w| - 1];
    EndCharsAppend(init, [';'], punct);
    assert init + [';'] == w;
    assert EndChars([';'], punct) == [';'];
  }

  /** Asking for the marker twice adds it once. */
  lemma FinishIdempotent(out: string)
    requires out != []
    ensures Finish(Finish(out, true), true) == Finish(out, true)
  {
  }
}
