/**
 * process_ai_command: forwards a command chosen by the AI to the drone's
 * command queue when its base verb is a valid command. The queue's
 * `add_command` is the only effect; it is modelled as the returned
 * `Dispatch`, so it happens at most once per call, and the module state
 * (`response`, `log_messages`) is left alone.
 */
module TelloControl {
  import opened Wrappers
  import opened PyStrings
  import Chatbot

  const ValidCommands: seq<string> :=
    ["takeoff", "land", "up", "down", "left", "right", "forward", "back", "cw", "ccw"]

  /** What one call does with the command. */
  datatype Dispatch =
    | Queued(command: string)  // add_command(command) is called
    | Dropped                  // nothing is queued
    | IndexError               // `command.split()[0]` raises

  /**
   * The base verb: the first `split()` token when the command contains a
   * space (the word after the leading whitespace, ending at whitespace or at
   * the end), the whole command otherwise; `None` when there is a space but no
   * token, where Python raises IndexError.
   */
  function BaseCommand(command: string): (base: Option<string>)
    ensures ' ' !in command ==> base == Some(command)
    ensures ' ' in command ==> (base.None? <==> AllSpace(command))
    ensures ' ' in command && base.Some? ==> IsWord(base.value)
    ensures ' ' in command && base.Some? ==> exists k :: FirstWordAt(command, base.value, k)
  {
    WordsEmptyIffSpaces(command);
    if ' ' in command then
      var parts := Words(command);
      if parts == [] then None
      else
        FirstWordPosition(command);
        Some(parts[0])
    else Some(command)
  }

  /**
   * The command is queued unchanged exactly when its base verb is, with its
   * exact case, one of the valid commands; otherwise it is dropped, or the
   * call raises when there is no base verb.
   */
  function ProcessAiCommand(command: string): (r: Dispatch)
    ensures r.Queued? ==> r.command == command
    ensures r.IndexError? <==> ' ' in command && AllSpace(command)
    ensures r.Queued? <==> BaseCommand(command).Some? && BaseCommand(command).value in ValidCommands
  {
    match BaseCommand(command)
    case None => IndexError
    case Some(base) => if base in ValidCommands then Queued(command) else Dropped
  }

  /** The valid commands are the ten verbs the validator knows. */
  lemma ValidCommandsAreCommandList()
    ensures ValidCommands == Chatbot.CommandList
  {
  }

  /** A command made of spaces alone raises. */
  lemma SpacesRaise()
    ensures ProcessAiCommand(" ") == IndexError
  {
    assert AllSpace(" ");
  }

  /** Every valid command is a lower-case ASCII word. */
  lemma ValidCommandsAreLowerAscii(v: string)
    ensures v in ValidCommands ==> Chatbot.IsLowerAsciiWord(v) && Lower(v) == v
  {
    if v in ValidCommands {
      LowerOfLowerAscii(v);
    }
  }

  /**
   * Matching is case-sensitive while validation is not: a move or rotation
   * within limits, with its verb written in any other case ("Forward 30"),
   * is accepted by validate_command and then dropped.
   */
  lemma OtherCaseVerbValidatedButDropped(c: Chatbot.Command, w: string)
    requires c.Move? || c.Rotate?
    requires Chatbot.WithinLimits(c)
    requires IsWord(w) && Lower(w) == Chatbot.Verb(c) && w != Chatbot.Verb(c)
    ensures var s := w + " " + IntToString(if c.Move? then c.distance else c.degrees);
      Chatbot.ValidateCommand(Some(s)) && ProcessAiCommand(s) == Dropped
  {
    var v := Chatbot.Verb(c);
    var arg := IntToString(if c.Move? then c.distance else c.degrees);
    var s := w + " " + arg;
    Chatbot.VerbIsLowerAscii(c);
    Chatbot.LowerAsciiWord(v);
    assert Chatbot.Format(c) == v + " " + arg;
    WordsOfPair(v, arg);
    WordsOfPair(w, arg);
    Chatbot.ValidateFormat(c);
    Chatbot.ValidateIgnoresVerbCase(Chatbot.Format(c), s);
    assert s[|w|] == ' ';
    assert BaseCommand(s) == Some(w);
    ValidCommandsAreLowerAscii(w);
  }

  /**
   * validate_command strips the text while the forwarder does not: a bare
   * verb followed by whitespace other than a space ("takeoff\n") is
   * accepted and then dropped, the whitespace staying part of the base.
   */
  lemma TrailingWhitespaceValidatedButDropped(c: Chatbot.Command, ch: char)
    requires c.TakeOff? || c.Land?
    requires IsSpace(ch) && ch != ' '
    ensures var s := Chatbot.Format(c) + [ch];
      Chatbot.ValidateCommand(Some(s)) && ProcessAiCommand(s) == Dropped
  {
    var v := Chatbot.Verb(c);
    var s := v + [ch];
    Chatbot.VerbIsLowerAscii(c);
    Chatbot.LowerAsciiWord(v);
    WordsOfWord(v);
    WordsAppendSpace(v, ch);
    Chatbot.ValidateFormat(c);
    Chatbot.ValidateByTokens(v);
    Chatbot.ValidateByTokens(s);
    assert forall i :: 0 <= i < |s| ==> s[i] != ' ';
    ValidCommandsAreLowerAscii(s);
    assert s[|s| - 1] == ch;
  }

  /**
   * A command accepted by validate_command is queued, unchanged, when its
   * verb is written in lower case and its only whitespace is spaces.
   */
  lemma ValidatedIsQueued(s: string)
    requires Chatbot.ValidateCommand(Some(s))
    requires forall i :: 0 <= i < |s| && IsSpace(s[i]) ==> s[i] == ' '
    requires Words(s) != [] ==> Lower(Words(s)[0]) == Words(s)[0]
    ensures ProcessAiCommand(s) == Queued(s)
  {
    Chatbot.ValidateNeedsKnownVerb(s);
    var verb := Words(s)[0];
    if ' ' !in s {
      assert NoSpace(s);
      WordsOfWord(s);
    }
  }

  /** The text of every command, in range or not, is queued unchanged. */
  lemma FormatIsQueued(c: Chatbot.Command)
    ensures ProcessAiCommand(Chatbot.Format(c)) == Queued(Chatbot.Format(c))
  {
    var v := Chatbot.Verb(c);
    Chatbot.VerbIsLowerAscii(c);
    Chatbot.LowerAsciiWord(v);
    match c
    case Move(_, distance) =>
      var s := v + " " + IntToString(distance);
      assert s[|v|] == ' ';
      WordsOfPair(v, IntToString(distance));
    case Rotate(_, degrees) =>
      var s := v + " " + IntToString(degrees);
      assert s[|v|] == ' ';
      WordsOfPair(v, IntToString(degrees));
    case _ =>
      assert forall i :: 0 <= i < |v| ==> v[i] != ' ';
  }
}
