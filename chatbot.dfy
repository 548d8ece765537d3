/**
 * The two pieces of the chatbot module that turn text into a drone command:
 * the textual command validator, and the scan of the AI's reply for its
 * `[DECISÃO]` (decision) and `[CONTINUA]` (continue route) lines.
 * The call to the language model that produces the reply is not modelled:
 * the reply text is a parameter.
 */
module Chatbot {
  import opened Wrappers
  import opened PyStrings

  /** The verbs the drone understands. */
  const CommandList: seq<string> :=
    ["takeoff", "land", "up", "down", "left", "right", "forward", "back", "cw", "ccw"]

  /** Verbs whose argument is a distance in centimetres. */
  const MoveVerbs: seq<string> := ["up", "down", "left", "right", "forward", "back"]

  /** Verbs whose argument is an angle in degrees. */
  const RotateVerbs: seq<string> := ["cw", "ccw"]

  /** Verbs that take no argument. */
  const BareVerbs: seq<string> := ["land", "takeoff"]

  const MinDistance := 20
  const MaxDistance := 500
  const MinDegrees := 1
  const MaxDegrees := 360

  // ---------------------------------------------------------------------------
  // validate_command

  /** Whether `arg` is acceptable as the argument of `verb`. */
  predicate ArgumentInRange(verb: string, arg: int) {
    if verb in RotateVerbs then MinDegrees <= arg <= MaxDegrees else MinDistance <= arg <= MaxDistance
  }

  /**
   * validate_command: `None` and the empty string are rejected; otherwise the
   * stripped text is split into whitespace-separated tokens, which
   * `ValidateParts` judges. A non-integer argument is a rejection, not an
   * error.
   */
  function ValidateCommand(cmd: Option<string>): (ok: bool)
    ensures ok ==> cmd.Some? && ValidateParts(Words(cmd.value))
  {
    match cmd
    case None => false
    case Some(s) =>
      WordsOfStrip(s);
      if s == [] then false else ValidateParts(Words(Strip(s)))
  }

  /**
   * The checks validate_command makes on the tokens: there is a first token,
   * which, lower-cased, must be a known verb; movement and rotation verbs need
   * exactly one integer argument in range, takeoff and land none.
   */
  function ValidateParts(parts: seq<string>): (ok: bool)
    ensures ok ==> parts != [] && Lower(parts[0]) in CommandList && 1 <= |parts| <= 2
    ensures ok && Lower(parts[0]) in BareVerbs ==> |parts| == 1
    ensures ok && Lower(parts[0]) in MoveVerbs + RotateVerbs ==>
      |parts| == 2 && ParseInt(parts[1]).Some? && ArgumentInRange(Lower(parts[0]), ParseInt(parts[1]).value)
  {
    VerbClasses(if parts == [] then "" else Lower(parts[0]));
    if parts == [] then false
    else
      var base := Lower(parts[0]);
      if base !in CommandList then false
      else if base in MoveVerbs + RotateVerbs then
        if |parts| != 2 then false
        else
          match ParseInt(parts[1])
          case None => false
          case Some(val) => ArgumentInRange(base, val)
      else if base in BareVerbs then |parts| == 1
      else true
  }

  /** validate_command judges the text by its `split()` tokens alone. */
  lemma ValidateByTokens(s: string)
    ensures ValidateCommand(Some(s)) == ValidateParts(Words(s))
  {
    WordsOfStrip(s);
  }

  /** The verb lists partition the ten verbs. */
  lemma VerbClasses(v: string)
    ensures v in CommandList <==> v in MoveVerbs || v in RotateVerbs || v in BareVerbs
    ensures v in MoveVerbs ==> v !in RotateVerbs && v !in BareVerbs
    ensures v in RotateVerbs ==> v !in BareVerbs
  {
  }

  /** None, the empty string and whitespace-only strings are rejected. */
  lemma ValidateRejectsBlank(cmd: Option<string>)
    requires cmd.None? || AllSpace(cmd.value)
    ensures !ValidateCommand(cmd)
  {
    if cmd.Some? {
      WordsEmptyIffSpaces(cmd.value);
    }
  }

  /**
   * An accepted command has a first token, and that token, lower-cased, is one
   * of the ten verbs; any other verb is rejected.
   */
  lemma ValidateNeedsKnownVerb(s: string)
    ensures ValidateCommand(Some(s)) ==> Words(s) != [] && Lower(Words(s)[0]) in CommandList
  {
  }

  /**
   * Acceptance depends on the verb only through its lower case: two commands
   * with the same tokens up to the case of the verb are both accepted or both
   * rejected.
   */
  lemma ValidateIgnoresVerbCase(s: string, t: string)
    requires Words(s) != [] && |Words(s)| == |Words(t)|
    requires Lower(Words(s)[0]) == Lower(Words(t)[0])
    requires Words(s)[1..] == Words(t)[1..]
    ensures ValidateCommand(Some(s)) == ValidateCommand(Some(t))
  {
    ValidateByTokens(s);
    ValidateByTokens(t);
    var p, q := Words(s), Words(t);
    if |p| == 2 {
      assert p[1] == p[1..][0] == q[1..][0] == q[1];
    }
  }

  /**
   * up, down, left, right, forward and back (in any case) are accepted exactly
   * when there are two tokens and the second is an integer from 20 to 500;
   * cw and ccw exactly when it is an integer from 1 to 360.
   */
  lemma ValidateArgumentVerbs(s: string)
    requires Words(s) != [] && Lower(Words(s)[0]) in MoveVerbs + RotateVerbs
    ensures ValidateCommand(Some(s)) <==>
      && |Words(s)| == 2
      && ParseInt(Words(s)[1]).Some?
      && (Lower(Words(s)[0]) in RotateVerbs ==> MinDegrees <= ParseInt(Words(s)[1]).value <= MaxDegrees)
      && (Lower(Words(s)[0]) in MoveVerbs ==> MinDistance <= ParseInt(Words(s)[1]).value <= MaxDistance)
  {
    ValidateByTokens(s);
    VerbClasses(Lower(Words(s)[0]));
  }

  /** takeoff and land (in any case) are accepted exactly when they stand alone. */
  lemma ValidateBareVerbs(s: string)
    requires Words(s) != [] && Lower(Words(s)[0]) in BareVerbs
    ensures ValidateCommand(Some(s)) <==> |Words(s)| == 1
  {
    ValidateByTokens(s);
    VerbClasses(Lower(Words(s)[0]));
  }

  // ---------------------------------------------------------------------------
  // The command language, as the drone link expects it: "<verb> <arg>" or a
  // bare verb.

  datatype Direction = Up | Down | Left | Right | Forward | Back

  datatype Command =
    | TakeOff
    | Land
    | Move(direction: Direction, distance: int)
    | Rotate(clockwise: bool, degrees: int)

  function DirectionWord(d: Direction): (w: string)
    ensures w in MoveVerbs
  {
    match d
    case Up => "up"
    case Down => "down"
    case Left => "left"
    case Right => "right"
    case Forward => "forward"
    case Back => "back"
  }

  function Verb(c: Command): (v: string)
    ensures v in CommandList
  {
    match c
    case TakeOff => "takeoff"
    case Land => "land"
    case Move(d, _) => DirectionWord(d)
    case Rotate(clockwise, _) => if clockwise then "cw" else "ccw"
  }

  /** The text of a command: the verb, then a space and the argument if it has one. */
  function Format(c: Command): (s: string)
    ensures StartsWith(s, Verb(c))
  {
    match c
    case TakeOff => Verb(c)
    case Land => Verb(c)
    case Move(_, distance) => Verb(c) + " " + IntToString(distance)
    case Rotate(_, degrees) => Verb(c) + " " + IntToString(degrees)
  }

  /** The ranges the validator enforces. */
  predicate WithinLimits(c: Command) {
    match c
    case TakeOff => true
    case Land => true
    case Move(_, distance) => MinDistance <= distance <= MaxDistance
    case Rotate(_, degrees) => MinDegrees <= degrees <= MaxDegrees
  }

  predicate IsLowerAsciiWord(s: string) {
    s != [] && forall i :: 0 <= i < |s| ==> 'a' <= s[i] <= 'z'
  }

  /** A lower-case ASCII word is a `split()` token and its own lower case. */
  lemma LowerAsciiWord(s: string)
    requires IsLowerAsciiWord(s)
    ensures IsWord(s) && Lower(s) == s
  {
    LowerOfLowerAscii(s);
  }

  /** Every verb is a lower-case ASCII word. */
  lemma VerbIsLowerAscii(c: Command)
    ensures IsLowerAsciiWord(Verb(c))
  {
    match c
    case Move(d, _) =>
      match d {
        case Up =>
        case Down =>
        case Left =>
        case Right =>
        case Forward =>
        case Back =>
      }
    case _ =>
  }

  lemma ValidatePartsWithArgument(verb: string, arg: string, val: int)
    requires Lower(verb) in MoveVerbs + RotateVerbs && ParseInt(arg) == Some(val)
    ensures ValidateParts([verb, arg]) == ArgumentInRange(Lower(verb), val)
  {
    VerbClasses(Lower(verb));
  }

  lemma ValidatePartsBare(verb: string)
    requires Lower(verb) in BareVerbs
    ensures ValidateParts([verb])
  {
    VerbClasses(Lower(verb));
  }

  /**
   * The validator accepts the text of a command exactly when the command is
   * within the drone's limits.
   */
  lemma ValidateFormat(c: Command)
    ensures ValidateCommand(Some(Format(c))) <==> WithinLimits(c)
  {
    var v := Verb(c);
    VerbIsLowerAscii(c);
    LowerAsciiWord(v);
    VerbClasses(v);
    match c
    case TakeOff =>
      WordsOfWord(v);
      ValidateByTokens(v);
      ValidatePartsBare(v);
    case Land =>
      WordsOfWord(v);
      ValidateByTokens(v);
      ValidatePartsBare(v);
    case Move(_, distance) =>
      ValidateFormatWithArgument(v, distance);
      assert Format(c) == v + " " + IntToString(distance);
    case Rotate(_, degrees) =>
      ValidateFormatWithArgument(v, degrees);
      assert Format(c) == v + " " + IntToString(degrees);
  }

  /** "<verb> <n>" for a movement or rotation verb is accepted exactly when n is in range. */
  lemma ValidateFormatWithArgument(verb: string, n: int)
    requires IsLowerAsciiWord(verb) && verb in MoveVerbs + RotateVerbs
    ensures ValidateCommand(Some(verb + " " + IntToString(n))) == ArgumentInRange(verb, n)
  {
    var arg := IntToString(n);
    LowerAsciiWord(verb);
    WordsOfPair(verb, arg);
    ValidateByTokens(verb + " " + arg);
    ParseIntOfIntToString(n);
    ValidatePartsWithArgument(verb, arg, n);
  }

  // ---------------------------------------------------------------------------
  // Decision and continue-route extraction from the AI's reply (run_ai)

  const DecisionMarker: string := "[DECIS\U{C3}O]"
  const ContinueMarker: string := "[CONTINUA]"

  /** The AI's way of saying that no command is needed. */
  const NoCommandPhrase: string := "nenhum comando necess\U{E1}rio"

  predicate IsDecisionLine(line: string) {
    StartsWith(line, DecisionMarker)
  }

  predicate IsContinueLine(line: string) {
    StartsWith(line, ContinueMarker)
  }

  /**
   * The command a decision line carries: every occurrence of the marker is
   * removed and the rest stripped; nothing when that is empty or says, in any
   * case, that no command is needed.
   */
  function DecisionOf(line: string): (cmd: Option<string>)
    ensures cmd.Some? ==> cmd.value != [] && !IsSpace(cmd.value[0]) && !IsSpace(cmd.value[|cmd.value| - 1])
    ensures cmd.Some? ==> Lower(cmd.value) != NoCommandPhrase
  {
    var commandText := Strip(RemoveAll(line, DecisionMarker));
    if Lower(commandText) == NoCommandPhrase || commandText == [] then None else Some(commandText)
  }

  /** No line is both a decision line and a continue line. */
  lemma MarkersExclusive(line: string)
    ensures !(IsDecisionLine(line) && IsContinueLine(line))
  {
    if IsDecisionLine(line) {
      assert line[..|DecisionMarker|] == DecisionMarker;
      assert line[1] == 'D';
      assert !StartsWith(line, ContinueMarker) by {
        if |ContinueMarker| <= |line| {
          assert line[..|ContinueMarker|][1] == 'D';
        }
      }
    }
  }

  /** No line after index `k` is a decision line. */
  predicate NoDecisionAfter(lines: seq<string>, k: int) {
    forall j :: 0 <= j < |lines| && k < j ==> !IsDecisionLine(lines[j])
  }

  /** Some line before index `n` is a continue line. */
  predicate SomeContinueBefore(lines: seq<string>, n: int) {
    exists j :: 0 <= j < n && j < |lines| && IsContinueLine(lines[j])
  }

  /** One more line raises the continue flag exactly when it is a continue line. */
  lemma ContinueBeforeNext(lines: seq<string>, i: int)
    requires 0 <= i < |lines|
    ensures SomeContinueBefore(lines, i + 1) <==> SomeContinueBefore(lines, i) || IsContinueLine(lines[i])
  {
  }

  /**
   * run_ai's scan of the reply: the reply is split at '\n'; the command comes
   * from the last line that starts with the decision marker (none if there is
   * no such line), and the route continues exactly when some line starts with
   * the continue marker.
   */
  method ExtractDecision(reply: string) returns (command: Option<string>, continueRoute: bool)
    ensures var lines := SplitOn(reply, '\n');
      continueRoute <==> SomeContinueBefore(lines, |lines|)
    ensures var lines := SplitOn(reply, '\n');
      NoDecisionAfter(lines, -1) ==> command == None
    ensures var lines := SplitOn(reply, '\n');
      forall k :: 0 <= k < |lines| && IsDecisionLine(lines[k]) && NoDecisionAfter(lines, k) ==>
        command == DecisionOf(lines[k])
  {
    var lines := SplitOn(reply, '\n');
    command := None;
    continueRoute := false;
    ghost var last := -1;
    var i := 0;
    while i < |lines|
      invariant 0 <= i <= |lines|
      invariant -1 <= last < i
      invariant continueRoute <==> SomeContinueBefore(lines, i)
      invariant last == -1 ==> command == None
      invariant last >= 0 ==> IsDecisionLine(lines[last]) && command == DecisionOf(lines[last])
      invariant forall j :: last < j < i ==> !IsDecisionLine(lines[j])
      invariant i == |lines| ==> NoDecisionAfter(lines, last)
    {
      var line := lines[i];
      ContinueBeforeNext(lines, i);
      if StartsWith(line, DecisionMarker) {
        var commandText := Strip(RemoveAll(line, DecisionMarker));
        if Lower(commandText) == NoCommandPhrase || commandText == [] {
          command := None;
        } else {
          command := Some(commandText);
        }
        assert command == DecisionOf(lines[i]);
        last := i;
        MarkersExclusive(line);
      } else {
        assert !IsDecisionLine(lines[i]);
        if StartsWith(line, ContinueMarker) {
          continueRoute := true;
        }
      }
      i := i + 1;
    }
    LastDecisionLine(lines, last);
  }

  /** When no decision line follows `last`, `last` is the one decision line with none after it. */
  lemma LastDecisionLine(lines: seq<string>, last: int)
    requires -1 <= last < |lines|
    requires last >= 0 ==> IsDecisionLine(lines[last])
    requires NoDecisionAfter(lines, last)
    ensures NoDecisionAfter(lines, -1) ==> last == -1
    ensures forall k :: 0 <= k < |lines| && IsDecisionLine(lines[k]) && NoDecisionAfter(lines, k) ==> k == last
  {
  }

  /**
   * `replace` removes a marker at the front of the line like any other: the
   * line yields what the text after the marker yields.
   */
  lemma DecisionOfMarkedLine(rest: string)
    ensures DecisionOf(DecisionMarker + rest) == DecisionOf(rest)
  {
    RemoveAllSkipsMatch(DecisionMarker, rest);
  }

  /** After a marker, a text free of markers is the command once stripped, unless it is blank or "nenhum comando". */
  lemma DecisionOfUnmarkedRest(rest: string)
    requires !Occurs(rest, DecisionMarker)
    ensures DecisionOf(DecisionMarker + rest) ==
      if Strip(rest) == [] || Lower(Strip(rest)) == NoCommandPhrase then None else Some(Strip(rest))
  {
    DecisionOfMarkedLine(rest);
    RemoveAllUntouched(rest, DecisionMarker);
  }

  /** A repeated marker is removed like a single one: "[DECISÃO][DECISÃO] up 30" still yields "up 30". */
  lemma RepeatedMarkerIgnored(rest: string)
    ensures DecisionOf(DecisionMarker + DecisionMarker + rest) == DecisionOf(DecisionMarker + rest)
  {
    assert DecisionMarker + DecisionMarker + rest == DecisionMarker + (DecisionMarker + rest);
    DecisionOfMarkedLine(DecisionMarker + rest);
  }

  /**
   * The decision line "[DECISÃO] <command>" written for any command yields
   * exactly that command's text.
   */
  lemma DecisionOfFormat(c: Command)
    ensures DecisionOf(DecisionMarker + " " + Format(c)) == Some(Format(c))
  {
    FormatEnds(c);
    FormatHasNoBracket(c);
    DecisionOfPadded(Format(c));
  }

  /** The same holds with the marker written twice, "[DECISÃO][DECISÃO] up 30". */
  lemma DecisionOfDoubleMarkedFormat(c: Command)
    ensures DecisionOf(DecisionMarker + (DecisionMarker + (" " + Format(c)))) == Some(Format(c))
  {
    FormatEnds(c);
    FormatHasNoBracket(c);
    DecisionOfDoublePadded(Format(c));
  }

  /** The decision line "[DECISÃO] <s>" yields `s` for trimmed, bracket-free `s` not starting with 'n'. */
  lemma DecisionOfPadded(s: string)
    requires s != [] && 'a' <= s[0] <= 'z' && s[0] != 'n' && !IsSpace(s[|s| - 1])
    requires '[' !in s
    ensures DecisionOf(DecisionMarker + " " + s) == Some(s)
  {
    StripOfPadded(s);
    assert '[' !in " " + s;
    NoMarkerInBracketFree(" " + s);
    NotNoCommandPhrase(s);
    DecisionOfUnmarkedRest(" " + s);
    assert DecisionMarker + " " + s == DecisionMarker + (" " + s);
  }

  lemma DecisionOfDoublePadded(s: string)
    requires s != [] && 'a' <= s[0] <= 'z' && s[0] != 'n' && !IsSpace(s[|s| - 1])
    requires '[' !in s
    ensures DecisionOf(DecisionMarker + (DecisionMarker + (" " + s))) == Some(s)
  {
    DecisionOfPadded(s);
    assert DecisionMarker + " " + s == DecisionMarker + (" " + s);
    DecisionOfMarkedLine(DecisionMarker + (" " + s));
  }

  /** A formatted command starts with a lower-case letter other than 'n' and ends without whitespace. */
  lemma FormatEnds(c: Command)
    ensures var s := Format(c);
      s != [] && 'a' <= s[0] <= 'z' && s[0] != 'n' && !IsSpace(s[|s| - 1])
  {
    var v := Verb(c);
    VerbIsLowerAscii(c);
    match c
    case Move(_, distance) =>
      SpacedEnds(v, IntToString(distance));
    case Rotate(_, degrees) =>
      SpacedEnds(v, IntToString(degrees));
    case _ =>
      assert Format(c) == v;
  }

  /** "verb arg" starts with the verb's first letter and ends with the argument's last character. */
  lemma SpacedEnds(v: string, arg: string)
    requires v != [] && IsWord(arg)
    ensures var s := v + " " + arg; s[0] == v[0] && !IsSpace(s[|s| - 1])
  {
    var s := v + " " + arg;
    assert s[|s| - 1] == arg[|arg| - 1];
  }

  /** Text starting with a letter other than 'n' is not the no-command phrase, in any case. */
  lemma NotNoCommandPhrase(s: string)
    requires s != [] && 'a' <= s[0] <= 'z' && s[0] != 'n'
    ensures Lower(s) != NoCommandPhrase
  {
    assert Lower(s)[0] == s[0];
    assert NoCommandPhrase[0] == 'n';
  }

  /** Stripping a space put in front of trimmed text gives the text back. */
  lemma StripOfPadded(s: string)
    requires s != [] && !IsSpace(s[0]) && !IsSpace(s[|s| - 1])
    ensures Strip(" " + s) == s
  {
    assert (" " + s)[1..] == s;
    assert StripStart(" " + s) == StripStart(s) == s;
  }

  /** Text without '[' cannot hold a marker. */
  lemma NoMarkerInBracketFree(t: string)
    requires '[' !in t
    ensures !Occurs(t, DecisionMarker)
  {
    forall i: nat | i <= |t| ensures !OccursAt(t, DecisionMarker, i) {
      if i + |DecisionMarker| <= |t| {
        assert t[i] != '[';
        assert t[i..i + |DecisionMarker|][0] == t[i];
      }
    }
  }

  /** A formatted command holds no '['. */
  lemma FormatHasNoBracket(c: Command)
    ensures '[' !in Format(c)
  {
    var s := Format(c);
    VerbIsLowerAscii(c);
    var v := Verb(c);
    assert forall i :: 0 <= i < |v| ==> v[i] != '[';
    match c
    case Move(_, distance) =>
      assert s == v + " " + IntToString(distance);
      IntToStringChars(distance);
    case Rotate(_, degrees) =>
      assert s == v + " " + IntToString(degrees);
      IntToStringChars(degrees);
    case _ =>
  }

  lemma IntToStringChars(n: int)
    ensures '[' !in IntToString(n)
  {
    var s := IntToString(n);
    if n < 0 {
      assert s == "-" + NatToString(-n);
    }
    assert forall i :: 0 <= i < |s| ==> IsDigit(s[i]) || s[i] == '-';
  }
}
