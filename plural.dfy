/**
 * The two Russian plural helpers of the handlers: `format_tasks_word`
 * ("1 задача", "3 задачи", "5 задач") and `format_tasks_accusative`
 * ("задачу", "задачи", "задач").
 *
 * Python's `%` with a positive divisor never returns a negative number,
 * and neither does Dafny's, so `n % 10` and `n % 100` mean the same here
 * for every int, negative ones included.
 */
module Plural {
  import opened Text

  /** The three grammatical number forms a count can take. */
  datatype Form = Singular | Paucal | Genitive

  /** The reference classification of a count, by its last one and two digits. */
  function FormOf(n: int): Form
  {
    var lastDigit, lastTwo := n % 10, n % 100;
    if lastDigit == 1 && !(lastTwo == 11) then Singular
    else if lastDigit in {2, 3, 4} && lastTwo !in {12, 13, 14} then Paucal
    else Genitive
  }

  function NominativeNoun(f: Form): string
  {
    match f
    case Singular => "задача"
    case Paucal => "задачи"
    case Genitive => "задач"
  }

  function AccusativeNoun(f: Form): string
  {
    match f
    case Singular => "задачу"
    case Paucal => "задачи"
    case Genitive => "задач"
  }

  /** `format_tasks_word`: the count followed by the nominative noun. */
  function FormatTasksWord(n: int): (s: string)
    ensures s == IntToString(n) + " " + NominativeNoun(FormOf(n))
  {
    if n % 10 == 1 && n % 100 != 11 then IntToString(n) + " задача"
    else if 2 <= n % 10 <= 4 && !(12 <= n % 100 <= 14) then IntToString(n) + " задачи"
    else IntToString(n) + " задач"
  }

  /** `format_tasks_accusative`: the noun alone, in the accusative. */
  function FormatTasksAccusative(n: int): (s: string)
    ensures s == AccusativeNoun(FormOf(n))
  {
    if n % 10 == 1 && n % 100 != 11 then "задачу"
    else if 2 <= n % 10 <= 4 && !(12 <= n % 100 <= 14) then "задачи"
    else "задач"
  }

  /** The last digit of a number is the last digit of its last two digits. */
  lemma LastDigitOfLastTwo(n: int)
    ensures n % 10 == (n % 100) % 10
  {
    var q, r := n / 100, n % 100;
    assert n == r + 10 * (10 * q);
  }

  /** The form depends only on the last two digits. */
  lemma FormOfPeriodic(n: int, k: int)
    ensures FormOf(n + 100 * k) == FormOf(n)
  {
    var m := n + 100 * k;
    assert m % 100 == n % 100;
    assert m % 10 == n % 10 by {
      assert m == n + 10 * (10 * k);
    }
  }

  /** 11 to 14 (and 111 to 114, ...) always take the genitive, whatever their last digit. */
  lemma TeensAreGenitive(n: int)
    requires 11 <= n % 100 <= 14
    ensures FormOf(n) == Genitive
    ensures FormatTasksAccusative(n) == "задач"
  {
    LastDigitOfLastTwo(n);
  }

  /** The two helpers agree on the form: the accusative and nominative differ only in the singular. */
  lemma HelpersAgree(n: int)
    ensures FormOf(n) != Singular ==> FormatTasksWord(n) == IntToString(n) + " " + FormatTasksAccusative(n)
    ensures FormOf(n) == Singular ==> FormatTasksAccusative(n) == "задачу" && FormatTasksWord(n) == IntToString(n) + " задача"
  {
  }
}
