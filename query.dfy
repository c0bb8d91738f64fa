/** The pure parts of `ask_gemini`: the prompt sent to the model and the
    choice of the text returned for the model's reply. The remote call
    itself is not part of this model. */
module Query {
  import opened Wrappers
  import opened PyText
  import opened History

  /** The fixed persona that opens every prompt. */
  function ArchUserInfo(): string {
    "You are an assistant for an Arch Linux user. "
    + "Any question related to Linux, bash, or system configuration "
    + "should be answered assuming commands are executed from a bash terminal. "
    + "Provide clear, short, and effective solutions. "
    + "If the user asks where your executable file is, say it is located at ~/bin/gemini. "
    + "If the question is unrelated to bash, just answer normally."
  }

  function HistoryHeading(): string { "\nRecent bash history:\n" }
  function QuestionHeading(): string { "\nUser question: " }

  /** What the user sees when the model's reply carries no text. */
  function NoResponse(): string {
    "\U{1F6AB} No response received from Gemini or response was empty."
  }

  /** The prompt around a given persona: the persona, then the history under
      its heading, then the question under its heading, in that order and
      with nothing else. */
  function BuildContext(persona: string, history: string, question: string): (context: string)
    ensures |context| == |persona| + |HistoryHeading()| + |history| + |QuestionHeading()| + |question|
    ensures context[..|persona|] == persona
    ensures context[|persona|..][..|HistoryHeading()|] == HistoryHeading()
    ensures context[|persona| + |HistoryHeading()|..][..|history|] == history
    ensures context[|persona| + |HistoryHeading()| + |history|..][..|QuestionHeading()|] == QuestionHeading()
    ensures context[|context| - |question|..] == question
  {
    persona + HistoryHeading() + history + QuestionHeading() + question
  }

  /** The prompt pins down its parts: two prompts around the same persona
      built from histories of the same length are equal only when history
      and question are. */
  lemma ContextDeterminesParts(persona: string, h1: string, q1: string, h2: string, q2: string)
    requires |h1| == |h2|
    requires BuildContext(persona, h1, q1) == BuildContext(persona, h2, q2)
    ensures h1 == h2 && q1 == q2
  {
    var c := BuildContext(persona, h1, q1);
    var k := |persona| + |HistoryHeading()|;
    assert h1 == c[k..][..|h1|];
    assert q1 == c[|c| - |q1|..];
  }

  /** The reply's text attribute, absent or present: a missing or empty text
      becomes the fixed notice, any other text is returned as it is. The
      answer is never empty. */
  function SelectAnswer(text: Option<string>): (answer: string)
    ensures answer != []
    ensures text.Some? && text.value != [] ==> answer == text.value
    ensures text.None? || text.value == [] ==> answer == NoResponse()
  {
    if text.None? || text.value == [] then NoResponse() else text.value
  }

  /** The prompt `ask_gemini` sends around the persona `persona` (the
      script's is `ArchUserInfo()`), built from the raw lines of the history
      file (reading it is not modelled) and the question. */
  function Prompt(persona: string, rawHistory: seq<string>, question: string): (prompt: string)
    ensures |persona| + |question| <= |prompt|
    ensures prompt[..|persona|] == persona
    ensures prompt[|prompt| - |question|..] == question
  {
    BuildContext(persona, HistoryText(rawHistory, DefaultMaxLines), question)
  }

  /** The prompt `ask_gemini` sends: the script's persona, the history read
      with the default limit, and the question. */
  function AskGeminiPrompt(rawHistory: seq<string>, question: string): string {
    Prompt(ArchUserInfo(), rawHistory, question)
  }

  /** The history part of the prompt sits right after the persona and its
      heading. It joins at most fifty cleaned lines, each stripped and
      non-blank, whatever the raw lines hold. */
  lemma ContextHistoryBounded(persona: string, rawHistory: seq<string>, question: string)
    ensures var clean := CleanLines(LastLines(rawHistory, DefaultMaxLines));
            var history := HistoryText(rawHistory, DefaultMaxLines);
            var prompt := Prompt(persona, rawHistory, question);
            && history == JoinLines(clean)
            && |persona| + |HistoryHeading()| + |history| <= |prompt|
            && prompt[|persona| + |HistoryHeading()|..][..|history|] == history
            && |clean| <= 50
            && (forall i :: 0 <= i < |clean| ==> clean[i] != [] && Strip(clean[i]) == clean[i])
  {
    CleanLinesStripped(LastLines(rawHistory, DefaultMaxLines));
  }
}
