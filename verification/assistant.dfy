/**
 * Answering a question about the timetable: validation first, then the canned
 * next-class answer, otherwise a prompt for the external language model.
 *
 * Parsing the events' JSON text is an input (`None` when it throws), and so is
 * the external answerer: a function from the prompt to its reply, or to a raised
 * error.
 */
module Assistant {

  import opened Options
  import opened Strings
  import opened Timetable

  const NextClassKeywords: seq<string> := ["next class", "next lecture", "upcoming class", "upcoming lecture"]

  const NoUpcomingMessage := "I" + " couldn't find any upcoming classes in your timetable."
  const NoAnswerMessage := "I'm sorry, I couldn't find an answer to your question."
  const FailureMessage :=
    "I'm sorry, I couldn't process your question. Please make sure you've uploaded a valid timetable and check your API key."

  const PromptPreamble :=
    "\n      You are a helpful student timetable assistant. Please answer the following question about the student's schedule."
    + "\n      The schedule data is provided in JSON format below:\n      \n      "
  const PromptMiddle := "\n      \n      Question: "
  const PromptPostamble :=
    "\n      \n      Please provide a clear and concise answer based on the schedule data."
    + " If the information is not available in the schedule, please say so.\n    "

  /** What the dispatch decides before any network call. */
  datatype Outcome = Local(text: string) | Delegate(prompt: string) | Apology

  /** What the external answerer gives back for a prompt. */
  datatype Reply = Answered(text: string) | Raised

  /** `keywords.some(keyword => text.includes(keyword))`. */
  function AnyKeywordIn(text: string, keywords: seq<string>): (b: bool)
    ensures b <==> exists i :: 0 <= i < |keywords| && Contains(text, keywords[i])
  {
    if keywords == [] then false
    else
      assert forall i :: 1 <= i < |keywords| ==> keywords[i] == keywords[1..][i - 1];
      Contains(text, keywords[0]) || AnyKeywordIn(text, keywords[1..])
  }

  predicate AsksForNextClass(question: string) {
    AnyKeywordIn(Lower(question), NextClassKeywords)
  }

  /** The next-class branch fires exactly when the lower-cased question contains one of the four phrases. */
  lemma AsksForNextClassSpec(question: string)
    ensures AsksForNextClass(question) <==>
      || Contains(Lower(question), "next class")
      || Contains(Lower(question), "next lecture")
      || Contains(Lower(question), "upcoming class")
      || Contains(Lower(question), "upcoming lecture")
  {
    var lq := Lower(question);
    if AsksForNextClass(question) {
      var i :| 0 <= i < |NextClassKeywords| && Contains(lq, NextClassKeywords[i]);
      assert i == 0 || i == 1 || i == 2 || i == 3;
    } else {
      assert !Contains(lq, NextClassKeywords[0]) && !Contains(lq, NextClassKeywords[1]);
      assert !Contains(lq, NextClassKeywords[2]) && !Contains(lq, NextClassKeywords[3]);
    }
  }

  /** `Your next class is "<summary>" at <location> on <date>.` */
  function NextClassAnswer(e: Event, locale: Locale): string {
    "Your next class is \"" + e.summary + "\" at " + e.location + " on " + locale.format(e.startDate) + "."
  }

  /** The prompt: preamble, the events' JSON text, the question, postamble. */
  function Prompt(eventsJson: string, question: string): string {
    PromptPreamble + eventsJson + PromptMiddle + question + PromptPostamble
  }

  /**
   * The prompt carries the events' JSON text and the question verbatim, in that
   * order, between the fixed pieces: both can be cut back out of it.
   */
  lemma PromptQuotesVerbatim(eventsJson: string, question: string)
    ensures var p, a, b := Prompt(eventsJson, question), |PromptPreamble|, |PromptPreamble| + |eventsJson|;
      && |p| == b + |PromptMiddle| + |question| + |PromptPostamble|
      && p[..a] == PromptPreamble
      && p[a..b] == eventsJson
      && p[b..b + |PromptMiddle|] == PromptMiddle
      && p[b + |PromptMiddle|..|p| - |PromptPostamble|] == question
      && p[|p| - |PromptPostamble|..] == PromptPostamble
  {
  }

  /**
   * `processQuestion` up to the external call: the apology exactly when the events
   * cannot be parsed, and a delegation only for a usable timetable and a question
   * that is not about the next class.
   */
  function Dispatch(question: string, eventsJson: string, decoded: Option<seq<Event>>,
                    now: Instant, locale: Locale): (r: Outcome)
    ensures r.Apology? <==> decoded.None?
    ensures r.Delegate? <==>
      decoded.Some? && ValidateTimetable(decoded.value, now).None? && !AsksForNextClass(question)
    ensures r.Local? ==> r.text != ""
  {
    match decoded
    case None => Apology
    case Some(events) =>
      var validationError := ValidateTimetable(events, now);
      if validationError.Some? then Local(validationError.value)
      else if AsksForNextClass(question) then
        match NextClass(events, now)
        case None => Local(NoUpcomingMessage)
        case Some(next) => Local(NextClassAnswer(next, locale))
      else Delegate(Prompt(eventsJson, question))
  }

  /** `processQuestion`: whatever happens, the answer is never empty. */
  function ProcessQuestion(question: string, eventsJson: string, decoded: Option<seq<Event>>,
                           now: Instant, locale: Locale, answerer: string -> Reply): (r: string)
    ensures r != ""
  {
    match Dispatch(question, eventsJson, decoded, now, locale)
    case Local(text) => text
    case Apology => FailureMessage
    case Delegate(prompt) =>
      match answerer(prompt)
      case Raised => FailureMessage
      case Answered(answer) => if answer != "" then answer else NoAnswerMessage
  }

  /**
   * A failing validation is the answer: neither the keyword test nor the external
   * answerer takes part.
   */
  lemma ValidationShortCircuits(question: string, eventsJson: string, events: seq<Event>,
                                now: Instant, locale: Locale, answerer: string -> Reply)
    requires ValidateTimetable(events, now).Some?
    ensures Dispatch(question, eventsJson, Some(events), now, locale) == Local(ValidateTimetable(events, now).value)
    ensures ProcessQuestion(question, eventsJson, Some(events), now, locale, answerer) == ValidateTimetable(events, now).value
  {
  }

  /**
   * Past validation, a next-class question gets the template around `getNextClass`,
   * which then exists; any other question is delegated with the prompt.
   */
  lemma KeywordDispatch(question: string, eventsJson: string, events: seq<Event>, now: Instant, locale: Locale)
    requires ValidateTimetable(events, now).None?
    ensures AsksForNextClass(question) ==>
      && NextClass(events, now).Some?
      && Dispatch(question, eventsJson, Some(events), now, locale) == Local(NextClassAnswer(NextClass(events, now).value, locale))
    ensures !AsksForNextClass(question) ==>
      Dispatch(question, eventsJson, Some(events), now, locale) == Delegate(Prompt(eventsJson, question))
  {
    ValidateTimetableSpec(events, now);
    NextClassSpec(events, now);
  }

  /** The "couldn't find any upcoming classes" reply can never be given. */
  lemma NoUpcomingIsUnreachable(question: string, eventsJson: string, decoded: Option<seq<Event>>,
                                now: Instant, locale: Locale)
    ensures Dispatch(question, eventsJson, decoded, now, locale) != Local(NoUpcomingMessage)
  {
    if decoded.Some? {
      var events := decoded.value;
      ValidateTimetableSpec(events, now);
      assert |NoEventsMessage| == 68 && |PastEventsMessage| == 79 && |NoUpcomingMessage| == 55;
      if ValidateTimetable(events, now).None? {
        KeywordDispatch(question, eventsJson, events, now, locale);
        if AsksForNextClass(question) {
          var answer := NextClassAnswer(NextClass(events, now).value, locale);
          assert answer[0] == 'Y';
          assert NoUpcomingMessage[0] == 'I';
        }
      }
    }
  }

  /**
   * A delegated question's reply is passed on unchanged when non-empty; an empty
   * reply becomes the no-answer apology and a raised error the failure apology.
   */
  lemma DelegatedReply(question: string, eventsJson: string, decoded: Option<seq<Event>>,
                       now: Instant, locale: Locale, answerer: string -> Reply)
    requires Dispatch(question, eventsJson, decoded, now, locale).Delegate?
    ensures var prompt := Prompt(eventsJson, question);
      var r := ProcessQuestion(question, eventsJson, decoded, now, locale, answerer);
      && Dispatch(question, eventsJson, decoded, now, locale) == Delegate(prompt)
      && (answerer(prompt).Answered? && answerer(prompt).text != "" ==> r == answerer(prompt).text)
      && (answerer(prompt) == Answered("") ==> r == NoAnswerMessage)
      && (answerer(prompt).Raised? ==> r == FailureMessage)
  {
  }

  /** When the events' JSON cannot be parsed the answer is the failure apology, whatever the answerer. */
  lemma UnreadableEventsApologise(question: string, eventsJson: string, now: Instant, locale: Locale,
                                  answerer: string -> Reply)
    ensures ProcessQuestion(question, eventsJson, None, now, locale, answerer) == FailureMessage
  {
  }
}
