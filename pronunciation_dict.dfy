/**
 * The pronunciation dictionary loader (`django_TTS/app/vocoder.py`, lines 53-57):
 * each line of a "WORD PHONEMES..." resource is stripped and split once at its
 * first space; the part before the space is the key, the stripped rest is the
 * value, and a later line for the same key overwrites an earlier one. A line
 * without a space aborts the whole load.
 */
module PronunciationDict {
  import opened Wrappers
  import opened PyStr

  datatype Entry = Entry(key: string, value: string)

  /** `FileNotFoundError` from `open`, or the `ValueError` raised when a line does not unpack into two parts. */
  datatype LoadError = FileNotFound | MalformedLine(index: nat)

  /** `key, value = s.split(" ", 1)` followed by `value.strip()`; `None` is the unpacking failure. */
  function SplitOnce(s: string): (r: Option<Entry>)
    ensures r.None? <==> ' ' !in s
  {
    var i := FirstIndex(s, ' ');
    if i == |s| then None else Some(Entry(s[..i], Strip(s[i + 1..])))
  }

  /** Splitting a stripped line at its first space leaves a non-empty, space-free key and a non-empty value. */
  lemma SplitStripped(s: string)
    requires s == [] || (!IsSpace(s[0]) && !IsSpace(s[|s| - 1]))
    ensures var r := SplitOnce(s); r.Some? ==> r.value.key != [] && ' ' !in r.value.key && r.value.value != []
  {
    var i := FirstIndex(s, ' ');
    if i < |s| {
      assert IsSpace(s[i]);
      assert i != 0 && i != |s| - 1;
      var rest := s[i + 1..];
      assert rest[|rest| - 1] == s[|s| - 1];
      EndsInNonSpace(rest);
    }
  }

  /** `line.strip().split(" ", 1)` unpacked, as on each line of the resource. */
  function ParseLine(line: string): (r: Option<Entry>)
    ensures r.None? <==> ' ' !in Strip(line)
  {
    SplitOnce(Strip(line))
  }

  /** A parsed key is non-empty and space-free, and its value is non-empty. */
  lemma ParseLineWellFormed(line: string)
    ensures var r := ParseLine(line); r.Some? ==> r.value.key != [] && ' ' !in r.value.key && r.value.value != []
  {
    SplitStripped(Strip(line));
  }

  /**
   * An entry written as `key + " " + value` parses back to itself, for every
   * key the loader can produce: non-empty, space-free and not starting with
   * whitespace (other whitespace, such as a tab, may occur inside).
   */
  lemma ParseLineFormat(e: Entry)
    requires e.key != [] && !IsSpace(e.key[0]) && ' ' !in e.key
    requires e.value != [] && !IsSpace(e.value[0]) && !IsSpace(e.value[|e.value| - 1])
    ensures ParseLine(e.key + " " + e.value) == Some(e)
  {
    var line := e.key + " " + e.value;
    JoinedLine(e.key, e.value);
    StripTrimmed(line);
    SplitOnceFormat(e);
  }

  /** Splitting `key + " " + value` at its first space gives the entry back. */
  lemma SplitOnceFormat(e: Entry)
    requires e.key != [] && ' ' !in e.key
    requires e.value != [] && !IsSpace(e.value[0]) && !IsSpace(e.value[|e.value| - 1])
    ensures SplitOnce(e.key + " " + e.value) == Some(e)
  {
    JoinedLine(e.key, e.value);
    SplitAtFirst(e.key + " " + e.value, |e.key|);
    StripTrimmed(e.value);
  }

  /** A space with no space before it is where the line splits. */
  lemma SplitAtFirst(s: string, i: nat)
    requires i < |s| && s[i] == ' ' && ' ' !in s[..i]
    ensures SplitOnce(s) == Some(Entry(s[..i], Strip(s[i + 1..])))
  {
    FirstIndexOfFirst(s, ' ', i);
  }

  /** Where the parts of `key + " " + value` sit in the line. */
  lemma JoinedLine(key: string, value: string)
    requires key != [] && value != []
    ensures var line := key + " " + value;
      && line[..|key|] == key && line[|key|] == ' ' && line[|key| + 1..] == value
      && line[0] == key[0] && line[|line| - 1] == value[|value| - 1]
  {
    var line := key + " " + value;
    assert line[..|key|] == key;
    assert line[|key| + 1..] == value;
  }

  /** Every line parsed on its own. */
  function ParseAll(lines: seq<string>): (parsed: seq<Option<Entry>>)
    ensures |parsed| == |lines|
    ensures forall i {:trigger parsed[i]} :: 0 <= i < |lines| ==> parsed[i] == ParseLine(lines[i])
  {
    seq(|lines|, i requires 0 <= i < |lines| => ParseLine(lines[i]))
  }

  /**
   * The dictionary after the loop has consumed the parsed lines in order, each
   * one assigning its key; the first unparsable line aborts the load.
   */
  function Fill(parsed: seq<Option<Entry>>): Result<map<string, string>, LoadError>
  {
    if parsed == [] then Ok(map[])
    else
      match Fill(parsed[..|parsed| - 1])
      case Err(e) => Err(e)
      case Ok(d) =>
        match parsed[|parsed| - 1]
        case None => Err(MalformedLine(|parsed| - 1))
        case Some(e) => Ok(d[e.key := e.value])
  }

  /** The loader: a missing resource fails, otherwise the lines are loaded in order. */
  function Load(file: Option<seq<string>>): Result<map<string, string>, LoadError>
  {
    match file
    case None => Err(FileNotFound)
    case Some(lines) => Fill(ParseAll(lines))
  }

  /** A failure in a prefix of the lines is the failure of the whole load. */
  lemma {:induction false} FillPrefixErr(parsed: seq<Option<Entry>>, j: nat)
    requires j <= |parsed| && Fill(parsed[..j]).Err?
    ensures Fill(parsed) == Fill(parsed[..j])
    decreases |parsed| - j
  {
    if j < |parsed| {
      var p := parsed[..j + 1];
      assert p[..|p| - 1] == parsed[..j];
      FillPrefixErr(parsed, j + 1);
    } else {
      assert parsed[..j] == parsed;
    }
  }

  /** A parsed line extends the dictionary built from the lines before it. */
  lemma FillStep(parsed: seq<Option<Entry>>, i: nat, d: map<string, string>, e: Entry)
    requires i < |parsed| && Fill(parsed[..i]) == Ok(d) && parsed[i] == Some(e)
    ensures Fill(parsed[..i + 1]) == Ok(d[e.key := e.value])
  {
    var p := parsed[..i + 1];
    assert p[..i] == parsed[..i];
  }

  /** The first unparsable line decides the outcome of the whole load. */
  lemma FillStopsAt(parsed: seq<Option<Entry>>, i: nat, d: map<string, string>)
    requires i < |parsed| && Fill(parsed[..i]) == Ok(d) && parsed[i].None?
    ensures Fill(parsed) == Err(MalformedLine(i))
  {
    var p := parsed[..i + 1];
    assert p[..i] == parsed[..i];
    FillPrefixErr(parsed, i + 1);
  }

  /**
   * Builds the dictionary in place, line by line, as the source's loop does;
   * stops at the first line that does not split into key and value.
   */
  method LoadDictionary(file: Option<seq<string>>) returns (r: Result<map<string, string>, LoadError>)
    ensures r == Load(file)
  {
    assert file.Some? ==> Load(file) == Fill(ParseAll(file.value));
    if file.None? {
      return Err(FileNotFound);
    }
    var lines := file.value;
    ghost var parsed := ParseAll(lines);
    var dict: map<string, string> := map[];
    var i := 0;
    while i < |lines|
      invariant 0 <= i <= |lines|
      invariant Fill(parsed[..i]) == Ok(dict)
    {
      var parsedLine := ParseLine(lines[i]);
      assert parsedLine == parsed[i];
      match parsedLine
      case None =>
        FillStopsAt(parsed, i, dict);
        return Err(MalformedLine(i));
      case Some(entry) =>
        FillStep(parsed, i, dict, entry);
        dict := dict[entry.key := entry.value];
      i := i + 1;
    }
    assert parsed[..i] == parsed;
    return Ok(dict);
  }

  /** The load succeeds exactly when every line parses; otherwise it reports the first line that does not. */
  lemma {:induction false} FillOutcome(parsed: seq<Option<Entry>>)
    ensures Fill(parsed).Ok? <==> forall i :: 0 <= i < |parsed| ==> parsed[i].Some?
    ensures Fill(parsed).Err? ==>
      && Fill(parsed).error.MalformedLine?
      && Fill(parsed).error.index < |parsed|
      && parsed[Fill(parsed).error.index].None?
      && forall i :: 0 <= i < Fill(parsed).error.index ==> parsed[i].Some?
  {
    if parsed != [] {
      var init := parsed[..|parsed| - 1];
      FillOutcome(init);
      assert forall i :: 0 <= i < |init| ==> init[i] == parsed[i];
    }
  }

  /** The keys are exactly the keys of the parsed lines. */
  lemma {:induction false} FillKeys(parsed: seq<Option<Entry>>, d: map<string, string>)
    requires Fill(parsed) == Ok(d)
    ensures forall k :: k in d <==>
      exists i :: 0 <= i < |parsed| && parsed[i].Some? && parsed[i].value.key == k
    ensures forall k :: k in d ==>
      exists i :: 0 <= i < |parsed| && parsed[i] == Some(Entry(k, d[k]))
  {
    if parsed != [] {
      var init := parsed[..|parsed| - 1];
      var d0 := Fill(init).value;
      FillKeys(init, d0);
      assert forall i :: 0 <= i < |init| ==> init[i] == parsed[i];
      var e := parsed[|parsed| - 1].value;
      forall k | k in d
        ensures exists i :: 0 <= i < |parsed| && parsed[i] == Some(Entry(k, d[k]))
      {
        if k != e.key {
          var i :| 0 <= i < |init| && init[i] == Some(Entry(k, d0[k]));
          assert parsed[i] == init[i];
        } else {
          assert parsed[|parsed| - 1] == Some(Entry(k, d[k]));
        }
      }
      forall k | exists i :: 0 <= i < |parsed| && parsed[i].Some? && parsed[i].value.key == k
        ensures k in d
      {
        var i :| 0 <= i < |parsed| && parsed[i].Some? && parsed[i].value.key == k;
        if i < |init| {
          assert init[i] == parsed[i];
        }
      }
    }
  }

  /** The last line with a given key decides its value: later lines overwrite earlier ones. */
  lemma {:induction false} FillLastWins(parsed: seq<Option<Entry>>, d: map<string, string>, i: nat, e: Entry)
    requires Fill(parsed) == Ok(d)
    requires i < |parsed| && parsed[i] == Some(e)
    requires forall j :: i < j < |parsed| && parsed[j].Some? ==> parsed[j].value.key != e.key
    ensures e.key in d && d[e.key] == e.value
  {
    var init := parsed[..|parsed| - 1];
    if i < |init| {
      assert forall j :: 0 <= j < |init| ==> init[j] == parsed[j];
      FillLastWins(init, Fill(init).value, i, e);
    }
  }

  /** One more line overwrites the entry for its key and leaves every other key unchanged. */
  lemma FillAppendLine(parsed: seq<Option<Entry>>, d: map<string, string>, e: Entry)
    requires Fill(parsed) == Ok(d)
    ensures Fill(parsed + [Some(e)]).Ok?
    ensures Fill(parsed + [Some(e)]).value.Keys == d.Keys + {e.key}
    ensures Fill(parsed + [Some(e)]).value[e.key] == e.value
    ensures forall k :: k in d && k != e.key ==> Fill(parsed + [Some(e)]).value[k] == d[k]
  {
    var all := parsed + [Some(e)];
    assert all[..|all| - 1] == parsed;
  }

  /** Every loaded key is non-empty and space-free and every value non-empty; keys are kept verbatim. */
  lemma LoadedEntriesWellFormed(lines: seq<string>, d: map<string, string>)
    requires Load(Some(lines)) == Ok(d)
    ensures forall k :: k in d ==> k != [] && ' ' !in k && d[k] != []
  {
    var parsed := ParseAll(lines);
    FillKeys(parsed, d);
    forall k | k in d ensures k != [] && ' ' !in k && d[k] != [] {
      var i :| 0 <= i < |parsed| && parsed[i] == Some(Entry(k, d[k]));
      assert ParseLine(lines[i]) == Some(Entry(k, d[k]));
      ParseLineWellFormed(lines[i]);
    }
  }
}
