/**
 * The parser for the `key: value` report of the macOS `airport -I` utility
 * (src/main.py line 238). Each line holding a ':' becomes one entry whose key
 * is the stripped text before the first ':' and whose value is the stripped
 * text between the first and the second ':' (so a value that itself holds a
 * ':', such as a BSSID, is cut short). Later lines overwrite earlier ones.
 */
module Airport {
  import opened Text

  /** A line the parser turns into an entry. */
  predicate IsField(line: string) {
    ':' in line
  }

  function FieldKey(line: string): string
    requires IsField(line)
  {
    Strip(Split(line, ':')[0])
  }

  function FieldValue(line: string): string
    requires IsField(line)
  {
    Strip(Split(line, ':')[1])
  }

  /** The key is what precedes the first ':', the value what lies between the
      first and the second ':' (or the end of the line); anything after a second
      ':' is dropped. */
  lemma FieldParts(key: string, value: string, rest: string)
    requires ':' !in key && ':' !in value
    requires rest == [] || rest[0] == ':'
    ensures IsField(key + ":" + value + rest)
    ensures FieldKey(key + ":" + value + rest) == Strip(key)
    ensures FieldValue(key + ":" + value + rest) == Strip(value)
  {
    var line := key + ":" + value + rest;
    assert line[|key|] == ':';
    assert line[..|key|] == key;
    IndexOfUnique(line, ':', |key|);
    var after := line[|key| + 1..];
    assert after == value + rest;
    var parts := Split(line, ':');
    assert parts == [key] + Split(after, ':');
    if rest == [] {
      assert after == value;
    } else {
      assert after[|value|] == ':';
      assert after[..|value|] == value;
      IndexOfUnique(after, ':', |value|);
    }
  }

  /** The entries of lines, read in order; a later key overwrites an earlier one. */
  function ParseLines(lines: seq<string>): map<string, string>
    decreases |lines|
  {
    if |lines| == 0 then map[]
    else
      var network := ParseLines(lines[..|lines| - 1]);
      var line := lines[|lines| - 1];
      if IsField(line) then network[FieldKey(line) := FieldValue(line)] else network
  }

  /** The network dictionary built from the utility's decoded stdout. */
  function Parse(stdout: string): map<string, string> {
    ParseLines(Split(stdout, '\n'))
  }

  /** Line i of lines produces an entry with key k. */
  predicate Defines(lines: seq<string>, i: int, k: string) {
    0 <= i < |lines| && IsField(lines[i]) && FieldKey(lines[i]) == k
  }

  /** One step of the parse: the last line adds its key, if it has one. */
  lemma KeysStep(lines: seq<string>, k: string)
    requires |lines| > 0
    ensures k in ParseLines(lines) <==>
      k in ParseLines(lines[..|lines| - 1]) || Defines(lines, |lines| - 1, k)
  {
  }

  /** Every line with a ':' contributes its key. */
  lemma {:induction false} DefinedIsParsed(lines: seq<string>, i: int, k: string)
    requires Defines(lines, i, k)
    ensures k in ParseLines(lines)
    decreases |lines|
  {
    KeysStep(lines, k);
    if i < |lines| - 1 {
      assert Defines(lines[..|lines| - 1], i, k);
      DefinedIsParsed(lines[..|lines| - 1], i, k);
    }
  }

  /** Every key present comes from some line; the witness is returned. */
  lemma {:induction false} ParsedIsDefined(lines: seq<string>, k: string) returns (i: int)
    requires k in ParseLines(lines)
    ensures Defines(lines, i, k)
    decreases |lines|
  {
    KeysStep(lines, k);
    if Defines(lines, |lines| - 1, k) {
      i := |lines| - 1;
    } else {
      var init := lines[..|lines| - 1];
      i := ParsedIsDefined(init, k);
      assert lines[i] == init[i];
    }
  }

  /** The value stored under a key comes from the last line that defines it. */
  lemma {:induction false} ParsedLastWins(lines: seq<string>, i: int, k: string)
    requires Defines(lines, i, k)
    requires forall j :: i < j < |lines| ==> !Defines(lines, j, k)
    ensures k in ParseLines(lines) && ParseLines(lines)[k] == FieldValue(lines[i])
    decreases |lines|
  {
    var init := lines[..|lines| - 1];
    if i < |lines| - 1 {
      assert Defines(init, i, k);
      forall j | i < j < |init|
        ensures !Defines(init, j, k)
      {
        assert !Defines(lines, j, k);
      }
      ParsedLastWins(init, i, k);
      assert !Defines(lines, |lines| - 1, k);
    }
  }

  /** At most one entry per line. */
  lemma {:induction false} ParsedSize(lines: seq<string>)
    ensures |ParseLines(lines)| <= |lines|
    decreases |lines|
  {
    if |lines| > 0 {
      ParsedSize(lines[..|lines| - 1]);
    }
  }

  /** Empty output (no Wi-Fi interface data) yields an empty dictionary. */
  lemma EmptyOutput()
    ensures Parse("") == map[]
  {
    assert Split("", '\n') == [""];
  }
}
