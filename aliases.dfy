/** src/alias.rs: the alias record, its three-line file format, the
    `?[name]` placeholder engine and the expansion that `execute` prints. */
module Aliases {
  import opened Text
  import opened Int8
  import Utils

  /** One alias. `storagePath` is the file it was read from or will be
      written to; nothing in the engine looks inside it. */
  datatype Alias = Alias(
    name: string,
    command: string,
    description: string,
    confirm: i8,   // 0: none, 1: yes/no prompt, 2: type the name; other values are kept as read
    storagePath: string)

  /** `update_description`: "-" clears the description, anything else
      replaces it; no other field changes. */
  function UpdateDescription(a: Alias, description: string): (r: Alias)
    ensures r.name == a.name && r.command == a.command && r.confirm == a.confirm
    ensures r.storagePath == a.storagePath
    ensures description == "-" ==> r.description == ""
    ensures description != "-" ==> r.description == description
  {
    a.(description := if description == "-" then "" else description)
  }

  /** `update_confirm`: the level is stored as given, without clamping. */
  function UpdateConfirm(a: Alias, confirm: i8): (r: Alias)
    ensures r.name == a.name && r.command == a.command && r.description == a.description
    ensures r.storagePath == a.storagePath
    ensures r.confirm == confirm
  {
    a.(confirm := confirm)
  }

  /** `is_in_main_storage`: the alias's file lies under the main storage
      directory, compared path component by path component. */
  predicate IsInMainStorage(a: Alias, mainRoot: string) {
    a.storagePath == mainRoot || StartsWith(a.storagePath, mainRoot + "/")
  }

  // ---------------------------------------------------------------------------
  // The file format

  /** The options line has the exact shape "confirm=<v>" with no further '='. */
  predicate IsConfirmLine(line: string) {
    StartsWith(line, "confirm=") && '=' !in line[8..]
  }

  /** The confirmation level an options line gives: the line is split at
      '='; exactly two pieces with "confirm" first give the second piece
      parsed as an i8 (0 when it is not one), any other shape gives 0. */
  function ConfirmOption(line: string): (c: i8)
    ensures IsConfirmLine(line) ==> c == ParseI8OrZero(line[8..])
    ensures !IsConfirmLine(line) ==> c == 0
  {
    ConfirmLineShape(line);
    var parts := Split(line, '=');
    if |parts| == 2 && parts[0] == "confirm" then ParseI8OrZero(parts[1]) else 0
  }

  /** Splitting at '=' gives exactly "confirm" and one more piece precisely
      for a line of the shape "confirm=<v>", and that piece is <v>. */
  lemma ConfirmLineShape(line: string)
    ensures var parts := Split(line, '=');
            (|parts| == 2 && parts[0] == "confirm") <==> IsConfirmLine(line)
    ensures IsConfirmLine(line) ==> Split(line, '=') == ["confirm", line[8..]]
  {
    if IsConfirmLine(line) {
      ConfirmLineSplits(line);
    }
    var parts := Split(line, '=');
    if |parts| == 2 && parts[0] == "confirm" {
      SplitIntoConfirm(line);
    }
  }

  lemma ConfirmLineSplits(line: string)
    requires IsConfirmLine(line)
    ensures Split(line, '=') == ["confirm", line[8..]]
  {
    var value := line[8..];
    assert line == "confirm" + ['='] + value by {
      assert line[..8] == "confirm=";
    }
    IndexOfAfter("confirm", '=', value);
    assert line[..7] == "confirm";
    assert line[8..] == value;
    assert Split(value, '=') == [value];
  }

  lemma SplitIntoConfirm(line: string)
    requires |Split(line, '=')| == 2 && Split(line, '=')[0] == "confirm"
    ensures IsConfirmLine(line)
  {
    SplitInTwo(line, '=');
    var i := IndexOf(line, '=');
    assert line[..i] == "confirm";
    assert i == 7;
    assert line[..8] == line[..7] + [line[7]];
  }

  datatype ReadResult = Parsed(alias: Alias) | EmptyOrInvalid

  /** `read`, given the lines of the alias file: no line is an error; the
      first line is the command, the second the description; a third line
      is an options line only when the file has exactly three lines. */
  function Read(name: string, lines: seq<string>, path: string): (r: ReadResult)
    ensures r.EmptyOrInvalid? <==> lines == []
    ensures r.Parsed? ==> r.alias.name == name && r.alias.storagePath == path
    ensures r.Parsed? ==> r.alias.command == lines[0]
    ensures |lines| == 1 ==> r.alias.description == "" && r.alias.confirm == 0
    ensures |lines| >= 2 ==> r.alias.description == lines[1]
    ensures |lines| == 2 ==> r.alias.confirm == 0
    ensures |lines| >= 4 ==> r.alias.confirm == 0
    ensures |lines| == 3 && IsConfirmLine(lines[2]) ==> r.alias.confirm == ParseI8OrZero(lines[2][8..])
    ensures |lines| == 3 && !IsConfirmLine(lines[2]) ==> r.alias.confirm == 0
  {
    if |lines| == 0 then EmptyOrInvalid
    else if |lines| == 1 then Parsed(Alias(name, lines[0], "", 0, path))
    else if |lines| == 2 then Parsed(Alias(name, lines[0], lines[1], 0, path))
    else if |lines| == 3 then Parsed(Alias(name, lines[0], lines[1], ConfirmOption(lines[2]), path))
    else Parsed(Alias(name, lines[0], lines[1], 0, path))
  }

  /** `write`: the text stored in an alias file. */
  function Write(a: Alias): string {
    a.command + "\n" + a.description + "\nconfirm=" + I8ToString(a.confirm)
  }

  /** A field survives a trip through a file when it holds no newline and
      does not end with a carriage return (which `lines` would drop). */
  predicate Storable(field: string) {
    '\n' !in field && !EndsWithCarriageReturn(field)
  }

  /** A written file always reads back as three lines: command,
      description and the options line; only a carriage return at the end
      of the command is lost. */
  lemma WriteLines(a: Alias)
    requires '\n' !in a.command && Storable(a.description)
    ensures Lines(Write(a)) ==
              [DropCarriageReturn(a.command), a.description, "confirm=" + I8ToString(a.confirm)]
  {
    var line := "confirm=" + I8ToString(a.confirm);
    assert '\n' !in line;
    assert Write(a) == a.command + "\n" + a.description + "\n" + line;
    LinesOfThree(a.command, a.description, line);
  }

  /** The options line that `write` produces reads back as the level. */
  lemma ConfirmLevelsAreNotClamped(level: i8)
    ensures ConfirmOption("confirm=" + I8ToString(level)) == level
  {
    var line := "confirm=" + I8ToString(level);
    assert line[8..] == I8ToString(level);
    assert IsConfirmLine(line);
    I8RoundTrip(level);
  }

  /** Reading what `write` stored gives back the same alias. */
  lemma ReadWriteRoundTrip(a: Alias)
    requires Storable(a.command) && Storable(a.description)
    ensures Read(a.name, Lines(Write(a)), a.storagePath) == Parsed(a)
  {
    WriteLines(a);
    ConfirmLevelsAreNotClamped(a.confirm);
  }

  /** Why the round trip needs `Storable`: a command ending in a carriage
      return comes back without it. */
  lemma CarriageReturnIsLost(a: Alias)
    requires '\n' !in a.command && EndsWithCarriageReturn(a.command)
    requires Storable(a.description)
    ensures Read(a.name, Lines(Write(a)), a.storagePath)
            == Parsed(a.(command := a.command[..|a.command| - 1]))
    ensures Read(a.name, Lines(Write(a)), a.storagePath) != Parsed(a)
  {
    WriteLines(a);
    ConfirmLevelsAreNotClamped(a.confirm);
    assert |a.command[..|a.command| - 1]| != |a.command|;
  }

  /** Levels are parsed, not clamped: the options line of every i8 level
      reads back as that level (ConfirmLevelsAreNotClamped); one outside
      the i8 range reads as 0. */
  lemma ConfirmOutOfRangeIsZero(line: string)
    requires line == "confirm=128"
    ensures ConfirmOption(line) == 0
  {
    assert line[8..] == "128";
    assert IsConfirmLine(line);
    assert DigitsValue("128") == 128 by {
      assert "128"[..2] == "12";
      assert "12"[..1] == "1";
      assert "1"[..0] == "";
    }
  }

  /** A leading '+' is accepted, as `str::parse` accepts it. */
  lemma ConfirmPlusSign(line: string)
    requires line == "confirm=+2"
    ensures ConfirmOption(line) == 2
  {
    assert line[8..] == "+2";
    assert IsConfirmLine(line);
    assert "+2"[1..] == "2";
    assert DigitsValue("2") == 2 by {
      assert "2"[..0] == "";
    }
  }

  // ---------------------------------------------------------------------------
  // Placeholders: the regular expression \?\[([A-Za-z0-9_]*)\]

  /** The placeholder text for a parameter name. */
  function Placeholder(key: string): (p: string)
    ensures |p| == |key| + 3
  {
    "?[" + key + "]"
  }

  /** The key of the placeholder that starts at the beginning of `s`, if
      one does: "?[", a run of name characters, then "]". */
  function PlaceholderAt(s: string): (r: Option<string>)
    ensures r.Some? ==> |r.value| + 3 <= |s|
  {
    if |s| >= 2 && s[0] == '?' && s[1] == '[' then
      var j := NameRunEnd(s, 2);
      if j < |s| && s[j] == ']' then Some(s[2..j]) else None
    else None
  }

  /** A recognised placeholder is "?[", its key of name characters, "]". */
  lemma PlaceholderAtShape(s: string)
    ensures PlaceholderAt(s).Some? ==>
              IsName(PlaceholderAt(s).value) && StartsWith(s, Placeholder(PlaceholderAt(s).value))
  {
    if PlaceholderAt(s).Some? {
      var j := NameRunEnd(s, 2);
      assert s[..j + 1] == "?[" + s[2..j] + "]";
    }
  }

  lemma PlaceholderAtOf(key: string, rest: string)
    requires IsName(key)
    ensures PlaceholderAt(Placeholder(key) + rest) == Some(key)
  {
    var s := Placeholder(key) + rest;
    var j := NameRunEnd(s, 2);
    assert s[|key| + 2] == ']';
    assert forall k :: 2 <= k < |key| + 2 ==> s[k] == key[k - 2];
    NameRunEndUnique(s, 2, |key| + 2);
    assert s[2..j] == key;
  }

  /** Some placeholder starts somewhere in `s`. */
  predicate HasPlaceholder(s: string) {
    exists i | 0 <= i < |s| :: PlaceholderAt(s[i..]).Some?
  }

  /** Every placeholder starts with '?'. */
  lemma NoQuestionMarkNoPlaceholder(s: string)
    requires '?' !in s
    ensures !HasPlaceholder(s)
  {
    forall i | 0 <= i < |s| ensures PlaceholderAt(s[i..]).None? {
      assert s[i..][0] == s[i];
    }
  }

  lemma NoPlaceholderParts(x: string)
    requires x != [] && !HasPlaceholder(x)
    ensures PlaceholderAt(x).None? && !HasPlaceholder(x[1..])
  {
    assert x[0..] == x;
    forall i | 0 <= i < |x| - 1 ensures PlaceholderAt(x[1..][i..]).None? {
      assert x[1..][i..] == x[i + 1..];
    }
  }

  /** Text without a placeholder cannot start one that runs into a
      following '?'. */
  lemma PlaceholderAtAppend(x: string, y: string)
    requires x != [] && PlaceholderAt(x).None?
    requires y == [] || y[0] == '?'
    ensures PlaceholderAt(x + y).None?
  {
    var s := x + y;
    if |s| >= 2 && s[0] == '?' && s[1] == '[' {
      assert |x| >= 2 && x[1] == '[';
      var j := NameRunEnd(x, 2);
      assert forall k :: 0 <= k < |x| ==> s[k] == x[k];
      if j == |x| && j < |s| {
        assert s[j] == y[0];
      }
      NameRunEndUnique(s, 2, j);
    }
  }

  // ---------------------------------------------------------------------------
  // fill_in_parameters

  /** What a fill pass produces: the text, the argument map as the pass
      left it, the answers not yet used, and the names the missing-argument
      handler was asked about, in order. */
  datatype Filled = Filled(text: string, args: map<string, string>, answers: seq<string>, asked: seq<string>)

  function Prepend(prefix: string, f: Filled): Filled {
    f.(text := prefix + f.text)
  }

  /** The handler's answer; once the scripted answers run out it answers
      "", which is what a failed prompt gives through `unwrap_or_default`. */
  function FirstAnswer(answers: seq<string>): string {
    if answers == [] then "" else answers[0]
  }

  function Rest(answers: seq<string>): seq<string> {
    if answers == [] then [] else answers[1..]
  }

  /** The value used for a name missing from the map: the handler's answer,
      except that an empty answer keeps the placeholder text when the
      instantiation is partial. */
  function MissingValue(key: string, answers: seq<string>, full: bool): (v: string)
    ensures FirstAnswer(answers) != "" ==> v == FirstAnswer(answers)
    ensures FirstAnswer(answers) == "" && full ==> v == ""
    ensures FirstAnswer(answers) == "" && !full ==> v == Placeholder(key)
  {
    var answer := FirstAnswer(answers);
    if answer == "" && !full then Placeholder(key) else answer
  }

  /** The replace-all pass of `fill_in_parameters`, scanning left to right:
      a placeholder whose key is in the map becomes its value; any other
      asks the handler, records the value in the map and substitutes it.
      Substituted text is never scanned again. */
  function Fill(s: string, args: map<string, string>, answers: seq<string>, full: bool): Filled
    decreases |s|
  {
    if s == [] then Filled([], args, answers, [])
    else
      match PlaceholderAt(s)
      case None =>
        Prepend([s[0]], Fill(s[1..], args, answers, full))
      case Some(key) =>
        var after := s[|key| + 3..];
        if key in args then
          Prepend(args[key], Fill(after, args, answers, full))
        else
          var value := MissingValue(key, answers, full);
          var f := Fill(after, args[key := value], Rest(answers), full);
          f.(text := value + f.text, asked := [key] + f.asked)
  }

  lemma FillUnfoldMissing(s: string, args: map<string, string>, answers: seq<string>, full: bool)
    requires PlaceholderAt(s).Some? && PlaceholderAt(s).value !in args
    ensures var key := PlaceholderAt(s).value;
            var value := MissingValue(key, answers, full);
            var f := Fill(s[|key| + 3..], args[key := value], Rest(answers), full);
            Fill(s, args, answers, full) == f.(text := value + f.text, asked := [key] + f.asked)
  {
  }

  lemma FillUnfoldKnown(s: string, args: map<string, string>, answers: seq<string>, full: bool)
    requires PlaceholderAt(s).Some? && PlaceholderAt(s).value in args
    ensures var key := PlaceholderAt(s).value;
            Fill(s, args, answers, full) == Prepend(args[key], Fill(s[|key| + 3..], args, answers, full))
  {
  }

  lemma FillUnfoldPlain(s: string, args: map<string, string>, answers: seq<string>, full: bool)
    requires s != [] && PlaceholderAt(s).None?
    ensures Fill(s, args, answers, full) == Prepend([s[0]], Fill(s[1..], args, answers, full))
  {
  }

  /** The placeholder keys of `s` in the order the scan meets them. */
  function Keys(s: string): seq<string>
    decreases |s|
  {
    if s == [] then []
    else
      match PlaceholderAt(s)
      case None => Keys(s[1..])
      case Some(key) => [key] + Keys(s[|key| + 3..])
  }

  /** One step of the scan keeps "what is written so far, followed by the
      fill of what is left, is the fill of the whole command". */
  lemma FillStepPlain(result: Filled, out: string, asked: seq<string>, rest: string,
                      args: map<string, string>, answers: seq<string>, full: bool)
    requires rest != [] && PlaceholderAt(rest).None?
    requires result.text == out + Fill(rest, args, answers, full).text
    requires result.asked == asked + Fill(rest, args, answers, full).asked
    ensures result.text == (out + [rest[0]]) + Fill(rest[1..], args, answers, full).text
    ensures result.asked == asked + Fill(rest[1..], args, answers, full).asked
  {
    FillUnfoldPlain(rest, args, answers, full);
  }

  lemma FillStepKnown(result: Filled, out: string, asked: seq<string>, rest: string,
                      args: map<string, string>, answers: seq<string>, full: bool)
    requires PlaceholderAt(rest).Some? && PlaceholderAt(rest).value in args
    requires result.text == out + Fill(rest, args, answers, full).text
    requires result.asked == asked + Fill(rest, args, answers, full).asked
    ensures var key := PlaceholderAt(rest).value;
            result.text == (out + args[key]) + Fill(rest[|key| + 3..], args, answers, full).text
    ensures var key := PlaceholderAt(rest).value;
            result.asked == asked + Fill(rest[|key| + 3..], args, answers, full).asked
  {
    FillUnfoldKnown(rest, args, answers, full);
  }

  lemma FillStepMissing(result: Filled, out: string, asked: seq<string>, rest: string,
                        args: map<string, string>, answers: seq<string>, full: bool)
    requires PlaceholderAt(rest).Some? && PlaceholderAt(rest).value !in args
    requires result.text == out + Fill(rest, args, answers, full).text
    requires result.asked == asked + Fill(rest, args, answers, full).asked
    ensures var key := PlaceholderAt(rest).value;
            var value := MissingValue(key, answers, full);
            var f := Fill(rest[|key| + 3..], args[key := value], Rest(answers), full);
            result.text == (out + value) + f.text && result.asked == (asked + [key]) + f.asked
  {
    FillUnfoldMissing(rest, args, answers, full);
  }

  /** `fill_in_parameters`: the command scanned left to right, each
      placeholder replaced by its argument, or by the answer to a question
      when the argument is missing; returns the text and the keys asked.
      The argument map is updated in place as the matches are visited, and
      the handler's answers are consumed in turn. */
  method FillInParameters(command: string, args: map<string, string>,
                          answers: seq<string>, fullInstantiation: bool)
    returns (out: string, asked: seq<string>)
    ensures out == Fill(command, args, answers, fullInstantiation).text
    ensures asked == Fill(command, args, answers, fullInstantiation).asked
  {
    ghost var result := Fill(command, args, answers, fullInstantiation);
    var known := args;
    var pending := answers;
    var rest := command;
    out, asked := "", [];
    while rest != []
      invariant result.text == out + Fill(rest, known, pending, fullInstantiation).text
      invariant result.asked == asked + Fill(rest, known, pending, fullInstantiation).asked
      decreases |rest|
    {
      match PlaceholderAt(rest)
      case None =>
        FillStepPlain(result, out, asked, rest, known, pending, fullInstantiation);
        out := out + [rest[0]];
        rest := rest[1..];
      case Some(key) =>
        if key in known {
          FillStepKnown(result, out, asked, rest, known, pending, fullInstantiation);
          out := out + known[key];
        } else {
          FillStepMissing(result, out, asked, rest, known, pending, fullInstantiation);
          var value := MissingValue(key, pending, fullInstantiation);
          out := out + value;
          asked := asked + [key];
          known := known[key := value];
          pending := Rest(pending);
        }
        rest := rest[|key| + 3..];
    }
  }

  // ---------------------------------------------------------------------------
  // Properties of the fill pass

  /** A command without any placeholder comes back unchanged, and the
      handler is not called. */
  lemma {:induction false} FillWithoutPlaceholders(s: string, args: map<string, string>,
                                                   answers: seq<string>, full: bool)
    requires !HasPlaceholder(s)
    ensures Fill(s, args, answers, full) == Filled(s, args, answers, [])
    decreases |s|
  {
    if s != [] {
      NoPlaceholderParts(s);
      FillWithoutPlaceholders(s[1..], args, answers, full);
      assert [s[0]] + s[1..] == s;
    }
  }

  /** Plain text before a placeholder is copied through as it is. */
  lemma {:induction false} FillAfterPlainText(before: string, y: string, args: map<string, string>,
                                              answers: seq<string>, full: bool)
    requires !HasPlaceholder(before)
    requires y == [] || y[0] == '?'
    ensures Fill(before + y, args, answers, full) == Prepend(before, Fill(y, args, answers, full))
    decreases |before|
  {
    if before == [] {
      assert before + y == y;
    } else {
      NoPlaceholderParts(before);
      FillAfterPlainText(before[1..], y, args, answers, full);
      FillPlainStep(before, y, args, answers, full);
    }
  }

  lemma FillPlainStep(before: string, y: string, args: map<string, string>,
                      answers: seq<string>, full: bool)
    requires before != [] && PlaceholderAt(before).None?
    requires y == [] || y[0] == '?'
    requires Fill(before[1..] + y, args, answers, full) == Prepend(before[1..], Fill(y, args, answers, full))
    ensures Fill(before + y, args, answers, full) == Prepend(before, Fill(y, args, answers, full))
  {
    var s := before + y;
    var rest := before[1..] + y;
    assert Fill(s, args, answers, full) == Prepend([before[0]], Fill(rest, args, answers, full)) by {
      assert s[1..] == rest && s[0] == before[0];
      PlaceholderAtAppend(before, y);
      FillUnfoldPlain(s, args, answers, full);
    }
    PrependTwice([before[0]], before[1..], Fill(y, args, answers, full));
    assert [before[0]] + before[1..] == before;
  }

  lemma PrependTwice(a: string, b: string, f: Filled)
    ensures Prepend(a, Prepend(b, f)) == Prepend(a + b, f)
  {
    assert a + (b + f.text) == (a + b) + f.text;
  }

  /** The first placeholder, when its key is in the map, becomes that value
      verbatim; the scan goes on after the placeholder, so the value is not
      rescanned. */
  lemma FillKnownKey(before: string, key: string, after: string, args: map<string, string>,
                     answers: seq<string>, full: bool)
    requires !HasPlaceholder(before) && IsName(key) && key in args
    ensures Fill(before + Placeholder(key) + after, args, answers, full)
            == Prepend(before + args[key], Fill(after, args, answers, full))
  {
    var y := Placeholder(key) + after;
    assert before + Placeholder(key) + after == before + y;
    FillAfterPlainText(before, y, args, answers, full);
    PlaceholderAtOf(key, after);
    assert y[|key| + 3..] == after;
    FillUnfoldKnown(y, args, answers, full);
  }

  /** The first placeholder, when its key is missing, asks the handler
      once, substitutes the value and records it in the map for the rest
      of the pass. */
  lemma FillMissingKey(before: string, key: string, after: string, args: map<string, string>,
                       answers: seq<string>, full: bool)
    requires !HasPlaceholder(before) && IsName(key) && key !in args
    ensures var value := MissingValue(key, answers, full);
            var f := Fill(after, args[key := value], Rest(answers), full);
            Fill(before + Placeholder(key) + after, args, answers, full)
            == f.(text := before + value + f.text, asked := [key] + f.asked)
  {
    var y := Placeholder(key) + after;
    assert before + Placeholder(key) + after == before + y;
    FillAfterPlainText(before, y, args, answers, full);
    FillPlaceholderFirst(key, after, args, answers, full);
    var value := MissingValue(key, answers, full);
    PrependAsked(before, value, key, Fill(after, args[key := value], Rest(answers), full));
  }

  /** A command that starts with a placeholder whose key is missing. */
  lemma FillPlaceholderFirst(key: string, after: string, args: map<string, string>,
                             answers: seq<string>, full: bool)
    requires IsName(key) && key !in args
    ensures var value := MissingValue(key, answers, full);
            var f := Fill(after, args[key := value], Rest(answers), full);
            Fill(Placeholder(key) + after, args, answers, full)
            == f.(text := value + f.text, asked := [key] + f.asked)
  {
    var y := Placeholder(key) + after;
    PlaceholderAtOf(key, after);
    assert y[|key| + 3..] == after;
    FillUnfoldMissing(y, args, answers, full);
  }

  lemma PrependAsked(before: string, value: string, key: string, f: Filled)
    ensures Prepend(before, f.(text := value + f.text, asked := [key] + f.asked))
            == f.(text := before + value + f.text, asked := [key] + f.asked)
  {
    assert before + (value + f.text) == before + value + f.text;
  }

  predicate NoDuplicates(s: seq<string>) {
    forall i, j :: 0 <= i < j < |s| ==> s[i] != s[j]
  }

  /** The handler is asked exactly about the distinct names that occur in
      the command and are missing from the map, each of them once. */
  lemma {:induction false} FillAsksOncePerMissingName(s: string, args: map<string, string>,
                                                      answers: seq<string>, full: bool)
    ensures NoDuplicates(Fill(s, args, answers, full).asked)
    ensures forall k :: k in Fill(s, args, answers, full).asked <==> k in Keys(s) && k !in args
    decreases |s|
  {
    if s != [] {
      match PlaceholderAt(s)
      case None =>
        FillAsksOncePerMissingName(s[1..], args, answers, full);
      case Some(key) =>
        var after := s[|key| + 3..];
        if key in args {
          FillAsksOncePerMissingName(after, args, answers, full);
        } else {
          var value := MissingValue(key, answers, full);
          FillAsksOncePerMissingName(after, args[key := value], Rest(answers), full);
          var f := Fill(after, args[key := value], Rest(answers), full);
          assert Fill(s, args, answers, full).asked == [key] + f.asked;
          assert Keys(s) == [key] + Keys(after);
          assert key !in f.asked;
        }
    }
  }

  /** Answers are consumed one per question, in order. */
  lemma {:induction false} FillConsumesOneAnswerPerQuestion(s: string, args: map<string, string>,
                                                            answers: seq<string>, full: bool)
    ensures var f := Fill(s, args, answers, full);
            if |f.asked| <= |answers| then f.answers == answers[|f.asked|..] else f.answers == []
    decreases |s|
  {
    if s != [] {
      match PlaceholderAt(s)
      case None =>
        FillUnfoldPlain(s, args, answers, full);
        FillConsumesOneAnswerPerQuestion(s[1..], args, answers, full);
      case Some(key) =>
        var after := s[|key| + 3..];
        if key in args {
          FillUnfoldKnown(s, args, answers, full);
          FillConsumesOneAnswerPerQuestion(after, args, answers, full);
        } else {
          var value := MissingValue(key, answers, full);
          var f := Fill(after, args[key := value], Rest(answers), full);
          FillUnfoldMissing(s, args, answers, full);
          FillConsumesOneAnswerPerQuestion(after, args[key := value], Rest(answers), full);
          ConsumeOneMore(answers, f.asked, f.answers);
        }
    }
  }

  /** Asking one more question consumes one more answer. */
  lemma ConsumeOneMore(answers: seq<string>, asked: seq<string>, left: seq<string>)
    requires if |asked| <= |Rest(answers)| then left == Rest(answers)[|asked|..] else left == []
    ensures if |[""] + asked| <= |answers| then left == answers[|[""] + asked|..] else left == []
  {
    if answers != [] && |asked| <= |Rest(answers)| {
      assert answers[1..][|asked|..] == answers[|asked| + 1..];
    }
  }

  /** Every key maps to its own placeholder text. */
  predicate MapsToPlaceholders(args: map<string, string>) {
    forall k :: k in args ==> args[k] == Placeholder(k)
  }

  predicate AllBlank(answers: seq<string>) {
    forall i :: 0 <= i < |answers| ==> answers[i] == ""
  }

  /** With a partial instantiation, names answered with "" stay parameters:
      the first occurrence keeps its placeholder and the map then holds the
      placeholder text, so every later occurrence keeps it too. With no
      answer at all, the command comes back unchanged. */
  lemma {:induction false} FillBlankAnswersKeepCommand(s: string, args: map<string, string>,
                                                       answers: seq<string>)
    requires MapsToPlaceholders(args) && AllBlank(answers)
    ensures Fill(s, args, answers, false).text == s
    decreases |s|
  {
    if s != [] {
      match PlaceholderAt(s)
      case None =>
        FillBlankAnswersKeepCommand(s[1..], args, answers);
        assert [s[0]] + s[1..] == s;
      case Some(key) =>
        var after := s[|key| + 3..];
        assert s == Placeholder(key) + after;
        if key in args {
          FillBlankAnswersKeepCommand(after, args, answers);
        } else {
          FillBlankAnswersKeepCommand(after, args[key := Placeholder(key)], Rest(answers));
        }
    }
  }

  /** "mv ?[a] ?[b]" with a = foo and b = bar gives "mv foo bar" without
      asking anything. */
  lemma FillExampleKnownArguments(command: string, args: map<string, string>)
    requires command == "mv ?[a] ?[b]" && args == map["a" := "foo", "b" := "bar"]
    ensures Fill(command, args, [], true) == Filled("mv foo bar", args, [], [])
  {
    var tail := " " + Placeholder("b");
    FillExampleKnownTail(tail, args);
    assert Fill(command, args, [], true) == Prepend("mv " + "foo", Fill(tail, args, [], true)) by {
      NoQuestionMarkNoPlaceholder("mv ");
      FillKnownKey("mv ", "a", tail, args, [], true);
      assert command == "mv " + Placeholder("a") + tail;
    }
    assert ("mv " + "foo") + " bar" == "mv foo bar";
  }

  /** The second placeholder of the example above. */
  lemma FillExampleKnownTail(tail: string, args: map<string, string>)
    requires tail == " " + Placeholder("b") && args == map["a" := "foo", "b" := "bar"]
    ensures Fill(tail, args, [], true) == Filled(" bar", args, [], [])
  {
    NoQuestionMarkNoPlaceholder(" ");
    FillWithoutPlaceholders("", args, [], true);
    FillKnownKey(" ", "b", "", args, [], true);
    assert tail == " " + Placeholder("b") + "";
    assert " " + "bar" + "" == " bar";
  }

  /** "cp ?[x] ?[x].bak" with x missing asks once, and the answer "f" is
      used for both occurrences: "cp f f.bak". */
  lemma FillExampleAskedOnce(command: string, answers: seq<string>)
    requires command == "cp ?[x] ?[x].bak" && answers == ["f"]
    ensures Fill(command, map[], answers, true).text == "cp f f.bak"
    ensures Fill(command, map[], answers, true).asked == ["x"]
  {
    var known := map["x" := "f"];
    var tail := " " + Placeholder("x") + ".bak";
    FillExampleFirstOccurrence(command, answers, tail, known);
    FillExampleSecondOccurrence(tail, known);
    assert "cp " + "f" + " f.bak" == "cp f f.bak";
  }

  /** The first "?[x]" of the example above asks the handler. */
  lemma FillExampleFirstOccurrence(command: string, answers: seq<string>, tail: string,
                                   known: map<string, string>)
    requires command == "cp ?[x] ?[x].bak" && answers == ["f"]
    requires tail == " " + Placeholder("x") + ".bak" && known == map["x" := "f"]
    ensures var f := Fill(tail, known, [], true);
            Fill(command, map[], answers, true) == f.(text := "cp " + "f" + f.text, asked := ["x"] + f.asked)
  {
    NoQuestionMarkNoPlaceholder("cp ");
    FillMissingKey("cp ", "x", tail, map[], answers, true);
    assert MissingValue("x", answers, true) == "f";
    assert Rest(answers) == [];
    assert map[]["x" := "f"] == known;
    assert command == "cp " + Placeholder("x") + tail;
  }

  /** The second "?[x]" of the example above is filled from the map. */
  lemma FillExampleSecondOccurrence(tail: string, known: map<string, string>)
    requires tail == " " + Placeholder("x") + ".bak" && known == map["x" := "f"]
    ensures Fill(tail, known, [], true) == Filled(" f.bak", known, [], [])
  {
    NoQuestionMarkNoPlaceholder(" ");
    NoQuestionMarkNoPlaceholder(".bak");
    FillWithoutPlaceholders(".bak", known, [], true);
    FillKnownKey(" ", "x", ".bak", known, [], true);
    assert " " + "f" + ".bak" == " f.bak";
  }

  // ---------------------------------------------------------------------------
  // execute

  const PwdMarker: string := "?pwd"

  function Quoted(path: string): string {
    "\"" + path + "\""
  }

  lemma PwdMarkerBorderFree()
    ensures BorderFree(PwdMarker)
  {
    forall k | 0 < k < |PwdMarker| ensures PwdMarker[..k] != PwdMarker[|PwdMarker| - k..] {
      assert PwdMarker[..k][0] == '?';
      assert PwdMarker[|PwdMarker| - k..][0] == PwdMarker[|PwdMarker| - k];
    }
  }

  /** The working-directory step of `execute`: when the command ends with
      "?pwd", every "?pwd" in it becomes the quoted directory; otherwise the
      command is used as it is. */
  function PwdTemplate(command: string, pwd: string): (t: string)
    ensures !EndsWith(command, PwdMarker) ==> t == command
    ensures EndsWith(command, PwdMarker) ==> EndsWith(t, Quoted(pwd))
  {
    if EndsWith(command, PwdMarker) then
      PwdMarkerBorderFree();
      ReplaceAllTrailing(command, PwdMarker, Quoted(pwd));
      ReplaceAll(command, PwdMarker, Quoted(pwd))
    else command
  }

  /** Occurrences before the trailing marker are replaced too. */
  lemma PwdTemplateReplacesEveryMarker(x: string, y: string, pwd: string)
    requires !Contains(x, PwdMarker) && EndsWith(x + PwdMarker + y, PwdMarker)
    ensures PwdTemplate(x + PwdMarker + y, pwd)
            == x + Quoted(pwd) + ReplaceAll(y, PwdMarker, Quoted(pwd))
  {
    PwdMarkerBorderFree();
    ReplaceAllFirst(x, PwdMarker, Quoted(pwd), y);
  }

  /** The line `execute` prints: the working-directory step with the
      canonical directory made absolute, then a full instantiation. */
  function Expand(a: Alias, args: map<string, string>, answers: seq<string>,
                  canonicalCwd: string): (r: Filled)
    ensures !EndsWith(a.command, PwdMarker) ==> r == Fill(a.command, args, answers, true)
  {
    Fill(PwdTemplate(a.command, Utils.AbsolutePath(canonicalCwd)), args, answers, true)
  }

  /** `execute`: prints exactly one line, the expanded command. */
  method Execute(a: Alias, args: map<string, string>, answers: seq<string>,
                 canonicalCwd: string, stdout: seq<string>)
    returns (printed: seq<string>)
    ensures printed == stdout + [Expand(a, args, answers, canonicalCwd).text]
  {
    var template := a.command;
    if EndsWith(a.command, PwdMarker) {
      var pwd := Utils.AbsolutePath(canonicalCwd);
      template := ReplaceAll(a.command, PwdMarker, Quoted(pwd));
    }
    var line, _ := FillInParameters(template, args, answers, true);
    printed := stdout + [line];
  }
}
