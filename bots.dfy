/**
 * The bookkeeping of a computer player (game/bot_player.py): a fixed
 * question, a random yes/no answer, and the history of answered questions.
 */
module Bots {
  import opened GuessText

  /** A question a player puts, and whether it is meant as a final guess. */
  datatype ResponseQuestion = ResponseQuestion(question: string, is_guess: bool)

  /** The record a bot reports about itself. */
  datatype BotRecord = BotRecord(id: int, role: string, history: seq<(string, string)>, is_bot: bool)

  /** How an answer is written into the history: "Да" for yes, "Нет" for no. */
  function AnswerText(answer: bool): (t: string)
    ensures t == "Да" || t == "Нет"
    ensures t == "Да" <==> answer
  {
    if answer then "Да" else "Нет"
  }

  class BotPlayer {
    const id: int
    var history: seq<(string, string)>
    var assigned_role: string

    /** A new bot knows nothing yet, and the role it is given is not stored. */
    constructor (bot_id: int, role: string)
      ensures id == bot_id && history == [] && assigned_role == ""
    {
      id := bot_id;
      history := [];
      assigned_role := "";
    }

    /** The bot's question: always the same ordinary question, never a guess. */
    function Ask(): (r: ResponseQuestion)
      ensures r.question == "Test" && !r.is_guess
    {
      ResponseQuestion("Test", false)
    }

    /** The bot's answer about `target_role`: any yes or no, chosen at random. */
    method AnsForQuestion(target_role: string, question: string) returns (answer: bool)
    {
      answer :| true;
    }

    /** Records one answered question at the end of the history; earlier entries stay. */
    method AddFact(question: string, answer: bool)
      modifies this
      ensures history == old(history) + [(question, AnswerText(answer))]
      ensures assigned_role == old(assigned_role)
    {
      history := history + [(question, if answer then "Да" else "Нет")];
    }

    /** What the bot reports: its id, its role, its history, and that it is a bot. */
    function ToDict(): (d: BotRecord)
      reads this
      ensures d.id == id && d.role == assigned_role && d.history == history && d.is_bot
    {
      BotRecord(id, assigned_role, history, true)
    }
  }

  /** The bot's question, put to the turn controller, is taken as an ordinary question and not as a final guess. */
  lemma BotQuestionIsOrdinary(bot: BotPlayer)
    ensures Strip(bot.Ask().question) == "Test"
    ensures !IsFinalGuess(Strip(bot.Ask().question))
  {
    StripUnpadded("Test");
    FinalGuessShape("Test");
  }
}
