/** The number extraction of `process_numbers`: the text is cut into lines,
    each line into comma-separated parts, each part is trimmed, and the
    trimmed parts that hold at least one digit are kept, in order. */
module Extraction {
  import opened Base
  import opened Text

  /** Every character that ends a candidate: the line break and the comma. */
  const Separators: set<char> := {',', '\n'}

  /** The trimmed-part test: non-empty and holding a digit. */
  predicate IsNumberCandidate(part: string) {
    |part| > 0 && HasDigit(part)
  }

  /** What every extracted item looks like. */
  predicate IsExtracted(item: string) {
    && IsNumberCandidate(item)
    && IsStripped(item)
    && (forall i :: 0 <= i < |item| ==> item[i] != ',' && item[i] != '\n')
  }

  /** `line.split(',')`. */
  function CommaParts(line: string): seq<string>
  {
    Split(line, {','})
  }

  /** The trimmed fields that pass the candidate test, in order. */
  function Kept(fields: seq<string>): seq<string>
  {
    Filter(IsNumberCandidate, Map(Strip, fields))
  }

  lemma KeptAppend(a: seq<string>, b: seq<string>)
    ensures Kept(a + b) == Kept(a) + Kept(b)
  {
    MapAppend(Strip, a, b);
    FilterAppend(IsNumberCandidate, Map(Strip, a), Map(Strip, b));
  }

  /** Reference definition of the extracted numbers: the trimmed fields
      between separators that pass the candidate test, in text order. */
  function Candidates(text: string): (numbers: seq<string>)
    ensures forall i :: 0 <= i < |numbers| ==> IsExtracted(numbers[i])
  {
    var fields := Split(text, Separators);
    var trimmed := Map(Strip, fields);
    forall i | 0 <= i < |trimmed|
      ensures forall j :: 0 <= j < |trimmed[i]| ==> trimmed[i][j] !in Separators
    {
      forall j | 0 <= j < |trimmed[i]|
        ensures trimmed[i][j] !in Separators
      {
        var k :| 0 <= k < |fields[i]| && fields[i][k] == trimmed[i][j];
      }
    }
    Kept(fields)
  }

  lemma FlattenCommaPartsCons(line: string, lines: seq<string>)
    ensures Flatten(Map(CommaParts, [line] + lines)) == CommaParts(line) + Flatten(Map(CommaParts, lines))
  {
    MapAppend(CommaParts, [line], lines);
    FlattenAppend([CommaParts(line)], Map(CommaParts, lines));
    assert Flatten([CommaParts(line)]) == CommaParts(line);
  }

  /** The fields of the lines, cut again at commas. */
  function LineFields(text: string): seq<string>
  {
    Flatten(Map(CommaParts, Split(text, {'\n'})))
  }

  lemma LineFieldsNewline(rest: string)
    requires LineFields(rest) == Split(rest, Separators)
    ensures LineFields("\n" + rest) == Split("\n" + rest, Separators)
  {
    var lines := Split(rest, {'\n'});
    SplitCons('\n', rest, {'\n'});
    SplitCons('\n', rest, Separators);
    assert Split("\n" + rest, {'\n'}) == [""] + lines;
    FlattenCommaPartsCons("", lines);
    assert CommaParts("") == [""];
  }

  /** A first character other than a line break opens the first line. */
  lemma LineFieldsFirstLine(c: char, rest: string)
    requires c != '\n'
    ensures var lines := Split(rest, {'\n'});
            LineFields([c] + rest) == CommaParts([c] + lines[0]) + Flatten(Map(CommaParts, lines[1..]))
            && LineFields(rest) == CommaParts(lines[0]) + Flatten(Map(CommaParts, lines[1..]))
  {
    var lines := Split(rest, {'\n'});
    SplitCons(c, rest, {'\n'});
    assert Split([c] + rest, {'\n'}) == [[c] + lines[0]] + lines[1..];
    FlattenCommaPartsCons(lines[0], lines[1..]);
    assert [lines[0]] + lines[1..] == lines;
    FlattenCommaPartsCons([c] + lines[0], lines[1..]);
  }

  /** A leading comma adds one empty field in front. */
  lemma LineFieldsComma(c: char, rest: string)
    requires c == ','
    requires LineFields(rest) == Split(rest, Separators)
    ensures LineFields([c] + rest) == Split([c] + rest, Separators)
  {
    var lines := Split(rest, {'\n'});
    var after := Flatten(Map(CommaParts, lines[1..]));
    SplitConsSeparator(c, rest, Separators);
    SplitConsSeparator(c, lines[0], {','});
    LineFieldsFirstLine(c, rest);
    PrependEmpty(CommaParts(lines[0]), after);
  }

  lemma PrependEmpty(r0: seq<string>, after: seq<string>)
    ensures ([""] + r0) + after == [""] + (r0 + after)
  {
  }

  /** Any other leading character joins the first field. */
  lemma LineFieldsPlain(c: char, rest: string)
    requires c !in Separators
    requires LineFields(rest) == Split(rest, Separators)
    ensures LineFields([c] + rest) == Split([c] + rest, Separators)
  {
    var lines := Split(rest, {'\n'});
    var after := Flatten(Map(CommaParts, lines[1..]));
    var r0 := CommaParts(lines[0]);
    LineFieldsFirstLine(c, rest);
    SplitCons(c, lines[0], {','});
    SplitCons(c, rest, Separators);
    assert CommaParts([c] + lines[0]) == [[c] + r0[0]] + r0[1..];
    JoinFirst(c, r0, after);
  }

  /** Cutting into lines and then into comma parts yields the same fields as
      cutting at both separators at once. */
  lemma {:induction false} LinesThenCommas(text: string)
    ensures LineFields(text) == Split(text, Separators)
    decreases |text|
  {
    if |text| == 0 {
      assert Split(text, {'\n'}) == [""];
      assert Map(CommaParts, [""]) == [CommaParts("")];
      assert Flatten([CommaParts("")]) == CommaParts("") + Flatten([]);
    } else {
      var c, rest := text[0], text[1..];
      assert text == [c] + rest;
      LinesThenCommas(rest);
      if c == '\n' {
        LineFieldsNewline(rest);
      } else if c == ',' {
        LineFieldsComma(c, rest);
      } else {
        LineFieldsPlain(c, rest);
      }
    }
  }

  /** The fields of the first lines grow by the comma parts of the next line. */
  lemma LinePrefixStep(lines: seq<string>, i: nat)
    requires i < |lines|
    ensures Kept(Flatten(Map(CommaParts, lines[..i + 1])))
            == Kept(Flatten(Map(CommaParts, lines[..i]))) + Kept(CommaParts(lines[i]))
  {
    assert lines[..i + 1] == lines[..i] + [lines[i]];
    MapAppend(CommaParts, lines[..i], [lines[i]]);
    assert Map(CommaParts, [lines[i]]) == [CommaParts(lines[i])];
    FlattenAppend(Map(CommaParts, lines[..i]), [CommaParts(lines[i])]);
    assert Flatten([CommaParts(lines[i])]) == CommaParts(lines[i]);
    KeptAppend(Flatten(Map(CommaParts, lines[..i])), CommaParts(lines[i]));
  }

  lemma PartPrefixStep(parts: seq<string>, j: nat)
    requires j < |parts|
    ensures var part := Strip(parts[j]);
            Kept(parts[..j + 1]) == Kept(parts[..j]) + (if IsNumberCandidate(part) then [part] else [])
  {
    assert parts[..j + 1] == parts[..j] + [parts[j]];
    KeptAppend(parts[..j], [parts[j]]);
  }

  /** The inner loop of `process_numbers` over the comma parts of one line:
      trim each part and keep it if it is non-empty and holds a digit. */
  method KeepNumbers(parts: seq<string>) returns (kept: seq<string>)
    ensures kept == Kept(parts)
  {
    kept := [];
    for j := 0 to |parts|
      invariant kept == Kept(parts[..j])
    {
      var part := Strip(parts[j]);
      PartPrefixStep(parts, j);
      if |part| > 0 && HasDigit(part) {
        kept := kept + [part];
      }
    }
    assert parts[..|parts|] == parts;
  }

  /** The extraction loop of `process_numbers`, written as in the source: for
      each line, for each comma part, the kept parts are appended in order. */
  method ExtractNumbers(text: string) returns (numbers: seq<string>)
    ensures numbers == Candidates(text)
    ensures forall i :: 0 <= i < |numbers| ==> IsExtracted(numbers[i])
  {
    numbers := [];
    var lines := Split(text, {'\n'});
    for i := 0 to |lines|
      invariant numbers == Kept(Flatten(Map(CommaParts, lines[..i])))
    {
      var kept := KeepNumbers(CommaParts(lines[i]));
      LinePrefixStep(lines, i);
      numbers := numbers + kept;
    }
    assert lines[..|lines|] == lines;
    LinesThenCommas(text);
  }

  /** Order is preserved: the numbers found before a separator come first,
      then those after it. */
  lemma CandidatesAtSeparator(a: string, c: char, b: string)
    requires c in Separators
    ensures Candidates(a + [c] + b) == Candidates(a) + Candidates(b)
  {
    SplitAtSeparator(a, c, b, Separators);
    MapAppend(Strip, Split(a, Separators), Split(b, Separators));
    FilterAppend(IsNumberCandidate, Map(Strip, Split(a, Separators)), Map(Strip, Split(b, Separators)));
  }

  /** A part that is already trimmed and holds a digit, without separators, is
      found as it is. */
  lemma SingleNumber(part: string)
    requires IsExtracted(part)
    ensures Candidates(part) == [part]
  {
    SplitNoSeparator(part, Separators);
    StripStripped(part);
    assert Map(Strip, [part]) == [part];
  }

  /** What the extraction step reports back. */
  datatype Intake = NoNumbersProvided | NoValidNumbers | Found(numbers: seq<string>)

  /** `process_numbers(numbers_text)`: the given text, or else the text of the
      message itself; empty input and input without any candidate are the
      two refusals. */
  function ProcessNumbers(given: string, messageText: string): (r: Intake)
    ensures r.NoNumbersProvided? <==> given == "" && messageText == ""
    ensures var text := if given != "" then given else messageText;
            r.NoValidNumbers? <==> text != "" && Candidates(text) == []
    ensures r.Found? ==> r.numbers == Candidates(if given != "" then given else messageText)
    ensures r.Found? ==> |r.numbers| > 0 && forall i :: 0 <= i < |r.numbers| ==> IsExtracted(r.numbers[i])
  {
    var text := if given != "" then given else messageText;
    if text == "" then NoNumbersProvided
    else
      var numbers := Candidates(text);
      if |numbers| == 0 then NoValidNumbers else Found(numbers)
  }
}
