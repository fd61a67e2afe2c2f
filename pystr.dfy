/**
 * The Python string built-ins the text front end relies on, written out over
 * `seq<char>`: `str.isspace`, `strip`, `rstrip(chars)`, `split()` (on runs of
 * whitespace), `split(" ", 1)` and `upper` (ASCII letters only).
 */
module PyStr {

  /** Python's `str.isspace` for one code point (Unicode White_Space as CPython defines it). */
  predicate IsSpace(c: char) {
    || ('\t' <= c <= '\r')
    || ('\U{1C}' <= c <= '\U{1F}')
    || c == ' '
    || c == '\U{85}'
    || c == '\U{A0}'
    || c == '\U{1680}'
    || ('\U{2000}' <= c <= '\U{200A}')
    || c == '\U{2028}'
    || c == '\U{2029}'
    || c == '\U{202F}'
    || c == '\U{205F}'
    || c == '\U{3000}'
  }

  /** A whitespace-free, non-empty run: what `split()` returns as one word. */
  predicate IsWord(w: string) {
    w != [] && forall i :: 0 <= i < |w| ==> !IsSpace(w[i])
  }

  predicate IsBlank(s: string) {
    forall i :: 0 <= i < |s| ==> IsSpace(s[i])
  }

  // ---------------------------------------------------------------------------
  // strip

  /** `s.lstrip()`: drop the maximal leading run of whitespace. */
  function LStrip(s: string): (r: string)
    ensures |r| <= |s| && r == s[|s| - |r|..]
    ensures r == [] || !IsSpace(r[0])
  {
    if s != [] && IsSpace(s[0]) then LStrip(s[1..]) else s
  }

  /** What `lstrip` removes is whitespace. */
  lemma {:induction false} LStripRemovesSpace(s: string)
    ensures forall i :: 0 <= i < |s| - |LStrip(s)| ==> IsSpace(s[i])
  {
    if s != [] && IsSpace(s[0]) {
      LStripRemovesSpace(s[1..]);
      forall i | 0 <= i < |s| - |LStrip(s)| ensures IsSpace(s[i]) {
        if i > 0 { assert s[i] == s[1..][i - 1]; }
      }
    }
  }

  /** `s.rstrip()`: drop the maximal trailing run of whitespace. */
  function RStrip(s: string): (r: string)
    ensures |r| <= |s| && r == s[..|r|]
    ensures r == [] || !IsSpace(r[|r| - 1])
  {
    if s != [] && IsSpace(s[|s| - 1]) then RStrip(s[..|s| - 1]) else s
  }

  /** What `rstrip` removes is whitespace. */
  lemma {:induction false} RStripRemovesSpace(s: string)
    ensures forall i :: |RStrip(s)| <= i < |s| ==> IsSpace(s[i])
  {
    if s != [] && IsSpace(s[|s| - 1]) {
      RStripRemovesSpace(s[..|s| - 1]);
      forall i | |RStrip(s)| <= i < |s| ensures IsSpace(s[i]) {
        if i < |s| - 1 { assert s[i] == s[..|s| - 1][i]; }
      }
    }
  }

  /** `s.strip()`: whitespace removed at both ends. */
  function Strip(s: string): (r: string)
    ensures |r| <= |s|
    ensures r == [] || (!IsSpace(r[0]) && !IsSpace(r[|r| - 1]))
  {
    var t := RStrip(s);
    var r := LStrip(t);
    assert r != [] ==> r[|r| - 1] == t[|t| - 1];
    r
  }

  /** A string ending in a non-space character does not strip to nothing. */
  lemma EndsInNonSpace(s: string)
    requires s != [] && !IsSpace(s[|s| - 1])
    ensures Strip(s) != []
  {
    StripBlank(s);
  }

  /** `strip` yields the empty string exactly for blank strings. */
  lemma StripBlank(s: string)
    ensures Strip(s) == [] <==> IsBlank(s)
  {
    var t := RStrip(s);
    LStripRemovesSpace(t);
    RStripRemovesSpace(s);
    if Strip(s) == [] {
      forall i | 0 <= i < |s| ensures IsSpace(s[i]) {
        if i < |t| {
          assert IsSpace(t[i]);
        }
      }
    } else {
      var r := Strip(s);
      assert r[0] == s[|t| - |r|];
    }
  }

  /** `strip` leaves a string that starts and ends with non-whitespace unchanged. */
  lemma StripTrimmed(s: string)
    requires s == [] || (!IsSpace(s[0]) && !IsSpace(s[|s| - 1]))
    ensures Strip(s) == s
  {
  }

  // ---------------------------------------------------------------------------
  // rstrip(chars)

  /** `s.rstrip(chars)`: drop the maximal trailing run of characters that occur in `chars`. */
  function RStripChars(s: string, chars: string): (r: string)
    ensures |r| <= |s| && r == s[..|r|]
    ensures r == [] || r[|r| - 1] !in chars
  {
    if s != [] && s[|s| - 1] in chars then RStripChars(s[..|s| - 1], chars) else s
  }

  /** What `rstrip(chars)` removes consists of characters of `chars`. */
  lemma {:induction false} RStripCharsRemoves(s: string, chars: string)
    ensures forall i :: |RStripChars(s, chars)| <= i < |s| ==> s[i] in chars
  {
    if s != [] && s[|s| - 1] in chars {
      RStripCharsRemoves(s[..|s| - 1], chars);
      forall i | |RStripChars(s, chars)| <= i < |s| ensures s[i] in chars {
        if i < |s| - 1 { assert s[i] == s[..|s| - 1][i]; }
      }
    }
  }

  /** `rstrip` depends only on which of the string's own characters the two sets hold. */
  lemma {:induction false} RStripCharsAgree(s: string, a: string, b: string)
    requires forall i :: 0 <= i < |s| ==> (s[i] in a <==> s[i] in b)
    ensures RStripChars(s, a) == RStripChars(s, b)
  {
    if s != [] && s[|s| - 1] in a {
      RStripCharsAgree(s[..|s| - 1], a, b);
    }
  }

  // ---------------------------------------------------------------------------
  // split(" ", 1)

  /** Index of the first occurrence of `c` in `s`, or `|s|` when there is none. */
  function FirstIndex(s: string, c: char): (i: nat)
    ensures i <= |s|
    ensures i < |s| ==> s[i] == c
    ensures c !in s[..i]
    ensures i == |s| <==> c !in s
  {
    if s == [] then 0
    else if s[0] == c then 0
    else
      var j := FirstIndex(s[1..], c);
      assert s[..j + 1] == [s[0]] + s[1..][..j];
      assert s == [s[0]] + s[1..];
      1 + j
  }

  /** An occurrence of `c` with none before it is the one `FirstIndex` finds. */
  lemma FirstIndexOfFirst(s: string, c: char, i: nat)
    requires i < |s| && s[i] == c && c !in s[..i]
    ensures FirstIndex(s, c) == i
  {
  }

  // ---------------------------------------------------------------------------
  // upper

  /** `str.upper` restricted to the ASCII letters. */
  function UpperChar(c: char): (u: char)
    ensures 'a' <= c <= 'z' ==> u as int == c as int - 32
    ensures !('a' <= c <= 'z') ==> u == c
  {
    if 'a' <= c <= 'z' then (c as int - 32) as char else c
  }

  function Upper(s: string): (r: string)
    ensures |r| == |s|
    ensures forall i {:trigger r[i]} :: 0 <= i < |s| ==> r[i] == UpperChar(s[i])
  {
    seq(|s|, i requires 0 <= i < |s| => UpperChar(s[i]))
  }

  /** Upper-casing twice is upper-casing once. */
  lemma UpperIdempotent(s: string)
    ensures Upper(Upper(s)) == Upper(s)
  {
  }

  // ---------------------------------------------------------------------------
  // split()

  /** Length of the leading run of non-whitespace characters of `s`. */
  function RunLen(s: string): (n: nat)
    ensures n <= |s|
    ensures n < |s| ==> IsSpace(s[n])
  {
    if s == [] || IsSpace(s[0]) then 0 else 1 + RunLen(s[1..])
  }

  /** The leading run holds no whitespace. */
  lemma {:induction false} RunLenIsWord(s: string)
    ensures IsWord(s[..RunLen(s)]) || RunLen(s) == 0
  {
    if s != [] && !IsSpace(s[0]) {
      RunLenIsWord(s[1..]);
      var n := RunLen(s);
      forall i | 0 <= i < n ensures !IsSpace(s[..n][i]) {
        if i > 0 { assert s[..n][i] == s[1..][..n - 1][i - 1]; }
      }
    }
  }

  /** `s.split()`: the maximal runs of non-whitespace characters, in order. */
  function Words(s: string): seq<string>
    decreases |s|
  {
    if s == [] then []
    else if IsSpace(s[0]) then Words(s[1..])
    else
      var n := RunLen(s);
      [s[..n]] + Words(s[n..])
  }

  /** Every word `split()` returns is non-empty and free of whitespace. */
  lemma {:induction false} WordsAreWords(s: string)
    ensures forall k :: 0 <= k < |Words(s)| ==> IsWord(Words(s)[k])
    decreases |s|
  {
    if s != [] {
      if IsSpace(s[0]) {
        WordsAreWords(s[1..]);
      } else {
        var n := RunLen(s);
        WordsAreWords(s[n..]);
        RunLenIsWord(s);
        var ws := Words(s);
        assert ws == [s[..n]] + Words(s[n..]);
        forall k | 0 <= k < |ws| ensures IsWord(ws[k]) {
          if k > 0 {
            assert ws[k] == Words(s[n..])[k - 1];
          }
        }
      }
    }
  }

  lemma {:induction false} RunLenAppend(a: string, b: string)
    ensures RunLen(a + b) == if RunLen(a) < |a| then RunLen(a) else |a| + RunLen(b)
  {
    if a == [] {
      assert a + b == b;
    } else if IsSpace(a[0]) {
      assert (a + b)[0] == a[0];
    } else {
      assert (a + b)[1..] == a[1..] + b;
      RunLenAppend(a[1..], b);
    }
  }

  /** A blank string has no words, and a string with no words is blank. */
  lemma {:induction false} WordsBlank(s: string)
    ensures Words(s) == [] <==> IsBlank(s)
    decreases |s|
  {
    if s != [] && IsSpace(s[0]) {
      WordsBlank(s[1..]);
      assert IsBlank(s) <==> IsBlank(s[1..]) by {
        if IsBlank(s[1..]) {
          forall i | 0 <= i < |s| ensures IsSpace(s[i]) {
            if i > 0 { assert s[i] == s[1..][i - 1]; }
          }
        }
      }
    }
  }

  /** A single word splits to itself. */
  lemma WordsOfWord(w: string)
    requires IsWord(w)
    ensures Words(w) == [w]
  {
    RunLenAppend(w, []);
    assert w + [] == w;
    assert w[|w|..] == [];
  }

  /** A whitespace character ends the leading run. */
  lemma RunLenBeforeSpace(a: string, c: char, b: string)
    requires IsSpace(c)
    ensures RunLen(a + [c] + b) == RunLen(a)
  {
    RunLenAppend(a, [c] + b);
    assert a + [c] + b == a + ([c] + b);
    assert ([c] + b)[0] == c;
  }

  /** Splitting at any whitespace character splits the words of the two sides apart. */
  lemma {:induction false} WordsSplitAtSpace(a: string, c: char, b: string)
    requires IsSpace(c)
    ensures Words(a + [c] + b) == Words(a) + Words(b)
    decreases |a|
  {
    var s := a + [c] + b;
    if a == [] {
      assert s == [c] + b && s[1..] == b;
    } else if IsSpace(a[0]) {
      assert s[0] == a[0] && s[1..] == a[1..] + [c] + b;
      calc {
        Words(s);
        Words(a[1..] + [c] + b);
        { WordsSplitAtSpace(a[1..], c, b); }
        Words(a[1..]) + Words(b);
      }
    } else {
      var n := RunLen(a);
      assert s[0] == a[0];
      RunLenBeforeSpace(a, c, b);
      assert s[..n] == a[..n];
      assert s[n..] == a[n..] + [c] + b;
      calc {
        Words(s);
        [a[..n]] + Words(a[n..] + [c] + b);
        { WordsSplitAtSpace(a[n..], c, b); }
        [a[..n]] + (Words(a[n..]) + Words(b));
        ([a[..n]] + Words(a[n..])) + Words(b);
      }
    }
  }

  /** Words joined by single spaces: the output shape `" ".join` would give. */
  function JoinSpace(ws: seq<string>): string {
    if ws == [] then [] else if |ws| == 1 then ws[0] else ws[0] + " " + JoinSpace(ws[1..])
  }

  /** `split()` undoes joining words with single spaces. */
  lemma {:induction false} WordsJoinSpace(ws: seq<string>)
    requires forall k :: 0 <= k < |ws| ==> IsWord(ws[k])
    ensures Words(JoinSpace(ws)) == ws
  {
    if |ws| == 1 {
      WordsOfWord(ws[0]);
    } else if |ws| > 1 {
      WordsJoinSpace(ws[1..]);
      WordsSplitAtSpace(ws[0], ' ', JoinSpace(ws[1..]));
      WordsOfWord(ws[0]);
      assert ws == [ws[0]] + ws[1..];
    }
  }

  /** The caller's blank-text guard (`not text.strip()`) is exactly "no words". */
  lemma StripEmptyIffNoWords(s: string)
    ensures Strip(s) == [] <==> Words(s) == []
  {
    StripBlank(s);
    WordsBlank(s);
  }
}
