/**
 * Speech to text: how a recognition result is turned into an edit (a
 * history command, a new paragraph or the transcript itself), and the
 * command that switches listening on and off.
 *
 * The voice commands are looked up with `VOICE_COMMANDS[key]` on a plain
 * object, so the lookup also sees the properties every object inherits.
 * The key is lower-cased, and the only inherited property names without an
 * upper-case letter are `constructor` (the `Object` function, which returns
 * its argument and edits nothing) and `__proto__` (an object, which is not
 * callable, so the call throws).
 */
module SpeechToText {
  import JsText

  datatype HistoryCommand = Undo | Redo

  /** What the result listener does to the document. */
  datatype Edit =
    | NoEdit
    | Dispatch(command: HistoryCommand)
    | InsertParagraph
    | InsertText(text: string)
    | Throws                          // a TypeError inside the editor update

  /** The value `VOICE_COMMANDS[key]` finds. */
  datatype Entry = Own(command: OwnCommand) | ObjectFunction | PrototypeObject | Missing

  datatype OwnCommand = NewParagraph | RedoCommand | UndoCommand

  /** `toLowerCase` on the letters A to Z; every other character is kept. */
  function Lower(s: string): (r: string)
    ensures |r| == |s|
    ensures forall k :: 0 <= k < |s| ==> (r[k] == s[k] || ('A' <= s[k] <= 'Z' && r[k] as int == s[k] as int + 32))
  {
    if s == [] then []
    else [if 'A' <= s[0] <= 'Z' then (s[0] as int + 32) as char else s[0]] + Lower(s[1..])
  }

  /** The lookup key of a transcript. */
  function Key(transcript: string): string {
    Lower(JsText.Trim(transcript, JsText.IsSpace))
  }

  function OwnEntry(key: string): (e: Entry)
    ensures e.Own? || e.Missing?
  {
    if key == "\n" then Own(NewParagraph)
    else if key == "redo" then Own(RedoCommand)
    else if key == "undo" then Own(UndoCommand)
    else Missing
  }

  /** `VOICE_COMMANDS[key]`, inherited properties included. */
  function LookupAsWritten(key: string): Entry {
    if OwnEntry(key).Own? then OwnEntry(key)
    else if key == "constructor" then ObjectFunction
    else if key == "__proto__" then PrototypeObject
    else Missing
  }

  predicate ContainsNewline(s: string) {
    exists k :: 0 <= k < |s| && s[k] == '\n'
  }

  function Run(entry: Entry, transcript: string): Edit {
    match entry
    case Own(NewParagraph) => InsertParagraph
    case Own(RedoCommand) => Dispatch(Redo)
    case Own(UndoCommand) => Dispatch(Undo)
    case ObjectFunction => NoEdit
    case PrototypeObject => Throws
    case Missing =>
      // `transcript.match(/\s*\n\s*/)` matches exactly when there is a line feed
      if ContainsNewline(transcript) then InsertParagraph else InsertText(transcript)
  }

  /** The result listener's edit, with the lookup as written. */
  function OnResultAsWritten(transcript: string, isFinal: bool, isRangeSelection: bool): Edit {
    if !isFinal || !isRangeSelection then NoEdit
    else Run(LookupAsWritten(Key(transcript)), transcript)
  }

  /** The result listener's edit when only the three own voice commands are looked up. */
  function OnResult(transcript: string, isFinal: bool, isRangeSelection: bool): Edit {
    if !isFinal || !isRangeSelection then NoEdit
    else Run(OwnEntry(Key(transcript)), transcript)
  }

  /** A final transcript whose trimmed, lower-cased form is `__proto__` reaches a call of a non-function, which throws. */
  lemma ProtoThrows(transcript: string)
    requires Key(transcript) == "__proto__"
    ensures OnResultAsWritten(transcript, true, true) == Throws
  {
  }

  /** A final transcript whose trimmed, lower-cased form is `constructor` edits nothing, where it would otherwise be inserted. */
  lemma ConstructorIsSwallowed(transcript: string)
    requires Key(transcript) == "constructor"
    ensures OnResultAsWritten(transcript, true, true) == NoEdit
    ensures OnResult(transcript, true, true) == if ContainsNewline(transcript) then InsertParagraph else InsertText(transcript)
  {
  }

  lemma {:induction false} LowerOfLowerCase(s: string)
    requires forall k :: 0 <= k < |s| ==> !('A' <= s[k] <= 'Z')
    ensures Lower(s) == s
  {
    if s != [] {
      LowerOfLowerCase(s[1..]);
    }
  }

  /** The plain word `constructor` is the input that shows it. */
  lemma ConstructorExample()
    ensures OnResultAsWritten("constructor", true, true) == NoEdit
    ensures OnResult("constructor", true, true) == InsertText("constructor")
  {
    LowerCaseWord("constructor");
    ConstructorIsSwallowed("constructor");
  }

  /** A word of lower-case letters is its own key and has no line feed. */
  lemma LowerCaseWord(w: string)
    requires w != [] && forall k :: 0 <= k < |w| ==> 'a' <= w[k] <= 'z'
    ensures Key(w) == w && !ContainsNewline(w)
  {
    JsText.TrimOfTrimmed(w, JsText.IsSpace);
    LowerOfLowerCase(w);
  }

  /** The `'\n'` voice command can never be looked up: the key is trimmed, and a line feed is whitespace. */
  lemma NewlineCommandUnreachable(transcript: string)
    ensures Key(transcript) != "\n"
  {
    var t := JsText.Trim(transcript, JsText.IsSpace);
    if |t| == 1 {
      assert Key(transcript)[0] == t[0] || 'A' <= t[0] <= 'Z';
    }
  }

  /** Non-final results and non-range selections never edit; `undo` and `redo`, in any case and spacing, dispatch their command. */
  lemma DispatchRules(transcript: string, isFinal: bool, isRangeSelection: bool)
    ensures !isFinal || !isRangeSelection ==> OnResult(transcript, isFinal, isRangeSelection) == NoEdit
    ensures isFinal && isRangeSelection && Key(transcript) == "undo" ==> OnResult(transcript, isFinal, isRangeSelection) == Dispatch(Undo)
    ensures isFinal && isRangeSelection && Key(transcript) == "redo" ==> OnResult(transcript, isFinal, isRangeSelection) == Dispatch(Redo)
  {
  }

  /** Any other final transcript becomes a paragraph break if it has a line feed, and is otherwise inserted exactly as heard. */
  lemma OtherTranscripts(transcript: string)
    requires Key(transcript) != "undo" && Key(transcript) != "redo"
    ensures ContainsNewline(transcript) ==> OnResult(transcript, true, true) == InsertParagraph
    ensures !ContainsNewline(transcript) ==> OnResult(transcript, true, true) == InsertText(transcript)
  {
    NewlineCommandUnreachable(transcript);
  }

  /** The two lookups differ only on the two inherited names. */
  lemma AsWrittenDiffersOnlyOnInherited(transcript: string, isFinal: bool, isRangeSelection: bool)
    requires Key(transcript) != "constructor" && Key(transcript) != "__proto__"
    ensures OnResultAsWritten(transcript, isFinal, isRangeSelection) == OnResult(transcript, isFinal, isRangeSelection)
  {
  }

  // SPEECH_TO_TEXT_COMMAND

  datatype State = State(isEnabled: bool, isSpeechToText: bool)

  /** The command handler: both flags take the payload, and the command is handled. */
  function SpeechToTextCommand(s: State, payload: bool): (bool, State) {
    (true, State(payload, payload))
  }

  /** The button dispatches the negation of the current listening flag. */
  function Press(s: State): State {
    SpeechToTextCommand(s, !s.isSpeechToText).1
  }

  /** After any command the two flags agree; a press flips listening, and two presses restore it. */
  lemma PressToggles(s: State, payload: bool)
    ensures SpeechToTextCommand(s, payload).0
    ensures SpeechToTextCommand(s, payload).1.isEnabled == SpeechToTextCommand(s, payload).1.isSpeechToText
    ensures Press(s).isSpeechToText == !s.isSpeechToText && Press(s).isEnabled == Press(s).isSpeechToText
    ensures Press(Press(s)).isSpeechToText == s.isSpeechToText
  {
  }
}
