/** The daily prompt: one of five questions chosen by the day number, and
    one stored answer per user and date. The current instant and today's
    date key are inputs. */
module Prompts {
  import opened Base
  import opened Text
  import opened Models

  const Questions: seq<string> := [
    "What\U{2019}s your ideal Sunday?",
    "Pick one: beach day or mountain hike?",
    "What hobby could you talk about for hours?",
    "What\U{2019}s a small joy that makes your day?",
    "What song do you play on repeat?"
  ]

  const DayMs: nat := 24 * 3600 * 1000

  /** `promptOfTheDay` at `ms` milliseconds after the epoch. */
  function PromptOfTheDay(ms: nat): (p: string)
    ensures p in Questions
  {
    Questions[(ms / DayMs) % |Questions|]
  }

  /** The prompt is fixed for a whole day and is the day number's entry,
      counted modulo five. */
  lemma PromptForDay(day: nat, ms: nat)
    requires day * DayMs <= ms < (day + 1) * DayMs
    ensures PromptOfTheDay(ms) == Questions[day % 5]
  {
    var q := ms / DayMs;
    assert q == day by {
      assert q * DayMs <= ms < (q + 1) * DayMs;
    }
  }

  /** The cycle repeats every five days, and consecutive days never share a
      prompt. */
  lemma PromptCycle(day: nat)
    ensures PromptOfTheDay((day + 5) * DayMs) == PromptOfTheDay(day * DayMs)
    ensures PromptOfTheDay((day + 1) * DayMs) != PromptOfTheDay(day * DayMs)
  {
    PromptForDay(day, day * DayMs);
    PromptForDay(day + 1, (day + 1) * DayMs);
    PromptForDay(day + 5, (day + 5) * DayMs);
    assert (day + 5) % 5 == day % 5;
    assert (day + 1) % 5 != day % 5;
  }

  datatype Today = Today(date: string, prompt: string, answered: bool, answer: string)

  /** `getTodayPrompt`. */
  function GetToday(s: Store, user: UserId, date: string, ms: nat): (r: Today)
    ensures r.date == date && r.prompt == PromptOfTheDay(ms)
    ensures r.answered <==> (user, date) in s.answers
    ensures !r.answered ==> r.answer == ""
    ensures r.answered ==> r.answer == s.answers[(user, date)]
  {
    var key := (user, date);
    if key in s.answers then Today(date, PromptOfTheDay(ms), true, s.answers[key])
    else Today(date, PromptOfTheDay(ms), false, "")
  }

  datatype Saved = Saved(date: string, answer: string)

  /** `answerTodayPrompt`: an absent or blank answer is refused; otherwise
      the trimmed answer is stored for (user, date), replacing any earlier
      one. */
  function AnswerToday(s: Store, user: UserId, date: string, answer: Option<string>): (r: Step<Saved>)
    ensures answer.None? || Blank(answer.value) ==> r == Step(s, Err(BadRequest("Answer is required")))
    ensures r.reply.Ok? <==> answer.Some? && !Blank(answer.value)
    ensures r.reply.Ok? ==> (user, date) in r.store.answers
    ensures r.reply.Ok? ==> r.reply.value == Saved(date, r.store.answers[(user, date)])
    ensures r.reply.Ok? ==> r.store.answers.Keys == s.answers.Keys + {(user, date)}
    ensures r.reply.Ok? ==> r.store.answers[(user, date)] == Trim(answer.value)
    ensures r.reply.Ok? ==> r.store.answers[(user, date)] != "" && Trimmed(r.store.answers[(user, date)])
    ensures forall k :: k in s.answers && k != (user, date) ==> k in r.store.answers && r.store.answers[k] == s.answers[k]
    ensures r.store.users == s.users && r.store.matches == s.matches && r.store.messages == s.messages
  {
    if answer.None? || Blank(answer.value) then Step(s, Err(BadRequest("Answer is required")))
    else
      var a := Trim(answer.value);
      Step(s.(answers := s.answers[(user, date) := a]), Ok(Saved(date, a)))
  }

  /** What was answered is what today's prompt shows: answered, with the
      trimmed text; a second answer on the same date replaces the first. */
  lemma AnswerThenGet(s: Store, user: UserId, date: string, a: string, b: string, ms: nat)
    requires !Blank(a)
    ensures var s1 := AnswerToday(s, user, date, Some(a)).store;
      GetToday(s1, user, date, ms) == Today(date, PromptOfTheDay(ms), true, Trim(a))
    ensures var s1 := AnswerToday(s, user, date, Some(a)).store;
            var s2 := AnswerToday(s1, user, date, Some(b)).store;
      !Blank(b) ==> && GetToday(s2, user, date, ms).answer == Trim(b)
                    && s2.answers.Keys == s1.answers.Keys
  {
  }

  /** Re-submitting the answer that is shown changes nothing; every stored
      answer is of this kind, since `AnswerToday` stores only non-empty
      trimmed text. */
  lemma AnswerIdempotent(s: Store, user: UserId, date: string)
    requires (user, date) in s.answers
    requires s.answers[(user, date)] != "" && Trimmed(s.answers[(user, date)])
    ensures AnswerToday(s, user, date, Some(s.answers[(user, date)])) == Step(s, Ok(Saved(date, s.answers[(user, date)])))
  {
    var v := s.answers[(user, date)];
    TrimTrimmed(v);
    assert !Blank(v) by { assert !IsSpace(v[0]); }
    assert s.answers[(user, date) := v] == s.answers;
  }
}
